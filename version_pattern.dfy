/** `VERSION_STATUS_PATTERN`, the regular expression `Python (\d\.\d+) \((.*)\)`,
    and Python's `search` with it, written out by hand for this one pattern. */
module VersionPattern {
  import opened Common

  /** The two captured groups of a match. */
  datatype Groups = Groups(version: string, status: string)

  /** `\d` (decimal digits; only the ASCII ones are modelled). */
  predicate IsDigit(c: char)
  {
    '0' <= c <= '9'
  }

  /** What the version group can capture: a digit, a dot, one or more digits. */
  predicate IsVersion(v: string)
  {
    && |v| >= 3
    && IsDigit(v[0]) && v[1] == '.'
    && forall k :: 2 <= k < |v| ==> IsDigit(v[k])
  }

  /** The literal text the pattern starts with. */
  const Prefix: string := "Python "

  /** At position `i`, `s` reads `Python <v> (<st>)`. */
  predicate SpellsAt(s: string, i: nat, v: string, st: string)
  {
    var d := i + 7 + |v|;
    var k := d + 2 + |st|;
    && k < |s|
    && s[i..i + 7] == Prefix
    && s[i + 7..d] == v
    && s[d] == ' ' && s[d + 1] == '('
    && s[d + 2..k] == st
    && s[k] == ')'
  }

  /** Length of the maximal run of digits starting at `i`: what greedy `\d+` takes. */
  function DigitRun(s: string, i: nat): (n: nat)
    requires i <= |s|
    ensures i + n <= |s|
    ensures forall k :: i <= k < i + n ==> IsDigit(s[k])
    ensures i + n == |s| || !IsDigit(s[i + n])
    decreases |s| - i
  {
    if i < |s| && IsDigit(s[i]) then 1 + DigitRun(s, i + 1) else 0
  }

  /** First position at or after `j` holding a line feed, or `|s|`: how far `.*` can reach. */
  function LineEnd(s: string, j: nat): (e: nat)
    requires j <= |s|
    ensures j <= e <= |s|
    ensures e == |s| || s[e] == '\n'
    ensures forall k :: j <= k < e ==> s[k] != '\n'
    decreases |s| - j
  {
    if j == |s| || s[j] == '\n' then j else LineEnd(s, j + 1)
  }

  /** Position of the last `)` in `s[j..e]`: where greedy `.*` gives back to `\)`. */
  function LastClose(s: string, j: nat, e: nat): (r: Option<nat>)
    requires j <= e <= |s|
    ensures r.Some? ==> j <= r.value < e && s[r.value] == ')'
    ensures r.Some? ==> forall k :: r.value < k < e ==> s[k] != ')'
    ensures r.None? ==> forall k :: j <= k < e ==> s[k] != ')'
    decreases e - j
  {
    if e == j then None
    else if s[e - 1] == ')' then Some(e - 1)
    else LastClose(s, j, e - 1)
  }

  /** `s` reads `Python D.` at `i`. */
  predicate HeadAt(s: string, i: nat)
  {
    i + 9 <= |s| && s[i..i + 7] == Prefix && IsDigit(s[i + 7]) && s[i + 8] == '.'
  }

  /** `s` reads ` (` at `d`. */
  predicate OpenAt(s: string, d: nat)
  {
    d + 2 <= |s| && s[d] == ' ' && s[d + 1] == '('
  }

  /** No `)` follows position `k` before the end of its line: greedy `.*` gives back only
      as far as the last `)` it can reach. */
  predicate LastCloseOnLine(s: string, k: nat)
    requires k < |s|
  {
    forall m :: k < m < LineEnd(s, k) ==> s[m] != ')'
  }

  /** Where a match at `i` ends its version group (`d`) and where its closing `)` is (`k`). */
  function MatchEnds(s: string, i: nat): (r: Option<(nat, nat)>)
    requires i <= |s|
    ensures r.Some? ==> HeadAt(s, i) && i + 9 < r.value.0 && OpenAt(s, r.value.0)
    ensures r.Some? ==> forall k :: i + 9 <= k < r.value.0 ==> IsDigit(s[k])
    ensures r.Some? ==> r.value.0 + 2 <= r.value.1 < |s| && s[r.value.1] == ')'
    ensures r.Some? ==> forall k :: r.value.0 + 2 <= k < r.value.1 ==> s[k] != '\n'
    ensures r.Some? ==> forall k :: r.value.1 < k < LineEnd(s, r.value.0 + 2) ==> s[k] != ')'
  {
    if !HeadAt(s, i) then None
    else
      var d := i + 9 + DigitRun(s, i + 9);
      if d == i + 9 || !OpenAt(s, d) then None
      else
        match LastClose(s, d + 2, LineEnd(s, d + 2))
        case None => None
        case Some(k) => Some((d, k))
  }

  /** The pattern tried at position `i`, with the backtracking of its greedy parts. */
  function MatchAt(s: string, i: nat): Option<Groups>
    requires i <= |s|
  {
    match MatchEnds(s, i)
    case None => None
    case Some((d, k)) => Some(Groups(s[i + 7..d], s[d + 2..k]))
  }

  /** Every match at `i` reads `Python <version> (<status>)` there, with a well-formed
      version and a status on one line that runs to the last `)` of that line. */
  lemma MatchAtShape(s: string, i: nat)
    requires i <= |s| && MatchAt(s, i).Some?
    ensures IsVersion(MatchAt(s, i).value.version)
    ensures '\n' !in MatchAt(s, i).value.status
    ensures SpellsAt(s, i, MatchAt(s, i).value.version, MatchAt(s, i).value.status)
    ensures LastCloseOnLine(s, i + 9 + |MatchAt(s, i).value.version| + |MatchAt(s, i).value.status|)
  {
    var (d, k) := MatchEnds(s, i).value;
    var g := MatchAt(s, i).value;
    assert g.version == s[i + 7..d] && g.status == s[d + 2..k];
    assert forall j :: 0 <= j < |g.version| ==> g.version[j] == s[i + 7 + j];
    assert forall j :: 0 <= j < |g.status| ==> g.status[j] == s[d + 2 + j];
    LineEndSkip(s, d + 2, k);
  }

  /** Text without a line feed does not move the end of the line. */
  lemma {:induction false} LineEndSkip(s: string, j: nat, m: nat)
    requires j <= m <= |s|
    requires forall k :: j <= k < m ==> s[k] != '\n'
    ensures LineEnd(s, j) == LineEnd(s, m)
    decreases m - j
  {
    if j < m {
      LineEndSkip(s, j + 1, m);
    }
  }

  /** `LastClose` finds a `)` that no later `)` in the range follows. */
  lemma {:induction false} LastCloseIs(s: string, j: nat, e: nat, k: nat)
    requires j <= k < e <= |s| && s[k] == ')'
    requires forall m :: k < m < e ==> s[m] != ')'
    ensures LastClose(s, j, e) == Some(k)
    decreases e - k
  {
    if e - 1 != k {
      LastCloseIs(s, j, e - 1, k);
    }
  }

  /** Conversely, wherever the text reads `Python <version> (<status>)`, the pattern
      matches there and captures that version. */
  lemma MatchAtComplete(s: string, i: nat, v: string, st: string)
    requires IsVersion(v) && '\n' !in st
    requires SpellsAt(s, i, v, st)
    ensures MatchAt(s, i).Some? && MatchAt(s, i).value.version == v
  {
    var d := i + 7 + |v|;
    var k := d + 2 + |st|;
    assert forall j :: 0 <= j < |v| ==> s[i + 7 + j] == s[i + 7..d][j] == v[j];
    assert HeadAt(s, i);
    DigitRunIs(s, i + 9, |v| - 2);
    assert OpenAt(s, d);
    forall j | d + 2 <= j <= k ensures s[j] != '\n' {
      if j < k {
        assert s[j] == s[d + 2..k][j - d - 2] == st[j - d - 2];
      }
    }
    assert k < LineEnd(s, d + 2);
    assert MatchEnds(s, i).Some?;
  }

  /** It captures that status too when the status's `)` is the last one on its line. */
  lemma MatchAtCapturesStatus(s: string, i: nat, v: string, st: string)
    requires IsVersion(v) && '\n' !in st
    requires SpellsAt(s, i, v, st) && LastCloseOnLine(s, i + 9 + |v| + |st|)
    ensures MatchAt(s, i) == Some(Groups(v, st))
  {
    MatchAtComplete(s, i, v, st);
    var d := i + 7 + |v|;
    var k := d + 2 + |st|;
    assert MatchEnds(s, i).value.0 == d;
    NoNewlineIn(s, d + 2, st);
    LineEndSkip(s, d + 2, k);
    assert k < LineEnd(s, d + 2);
  }

  /** A slice equal to a text without line feeds holds no line feed. */
  lemma NoNewlineIn(s: string, j: nat, st: string)
    requires j + |st| <= |s| && s[j..j + |st|] == st && '\n' !in st
    ensures forall k :: j <= k < j + |st| ==> s[k] != '\n'
  {
    forall k | j <= k < j + |st| ensures s[k] != '\n' {
      assert s[k] == st[k - j];
    }
  }

  /** `DigitRun` takes exactly a run of `n` digits that is followed by a non-digit. */
  lemma {:induction false} DigitRunIs(s: string, i: nat, n: nat)
    requires i + n < |s|
    requires forall k :: i <= k < i + n ==> IsDigit(s[k])
    requires !IsDigit(s[i + n])
    ensures DigitRun(s, i) == n
    decreases n
  {
    if n > 0 {
      DigitRunIs(s, i + 1, n - 1);
    }
  }

  /** The leftmost position at or after `i` where the pattern matches. */
  function FirstMatch(s: string, i: nat): (r: Option<nat>)
    requires i <= |s|
    ensures r.Some? ==> i <= r.value <= |s| && MatchAt(s, r.value).Some?
    ensures r.Some? ==> forall j :: i <= j < r.value ==> MatchAt(s, j).None?
    ensures r.None? ==> forall j :: i <= j <= |s| ==> MatchAt(s, j).None?
    decreases |s| - i
  {
    if MatchAt(s, i).Some? then Some(i)
    else if i == |s| then None
    else FirstMatch(s, i + 1)
  }

  /** `VERSION_STATUS_PATTERN.search(s)`: the match at the leftmost position that has one. */
  function Search(s: string): Option<Groups>
  {
    match FirstMatch(s, 0)
    case None => None
    case Some(j) => MatchAt(s, j)
  }

  /** Whatever `search` finds reads `Python <version> (<status>)` somewhere in the text,
      with a well-formed version and a one-line status; and `search` fails exactly when
      the text reads no such phrase anywhere. */
  lemma SearchShape(s: string)
    ensures Search(s).Some? ==>
              && IsVersion(Search(s).value.version)
              && '\n' !in Search(s).value.status
              && exists i: nat :: && SpellsAt(s, i, Search(s).value.version, Search(s).value.status)
                                 && LastCloseOnLine(s, i + 9 + |Search(s).value.version| + |Search(s).value.status|)
    ensures Search(s).None? ==>
              forall i: nat, v, st :: IsVersion(v) && '\n' !in st ==> !SpellsAt(s, i, v, st)
  {
    if Search(s).Some? {
      MatchAtShape(s, FirstMatch(s, 0).value);
    } else {
      forall i: nat, v, st | IsVersion(v) && '\n' !in st
        ensures !SpellsAt(s, i, v, st)
      {
        if SpellsAt(s, i, v, st) {
          MatchAtComplete(s, i, v, st);
        }
      }
    }
  }

  /** The version and status shown for a link text: the captured groups when the pattern
      matches, otherwise the whole text and an empty status. */
  function ParseVersionStatus(text: string): (string, string)
  {
    match Search(text)
    case Some(g) => (g.version, g.status)
    case None => (text, "")
  }

  /** A text that spells out the pattern yields its two groups. */
  lemma ParseMatchingExample()
    ensures ParseVersionStatus("Python 3.10 (Active)") == ("3.10", "Active")
  {
    var s := "Python 3.10 (Active)";
    assert SpellsAt(s, 0, "3.10", "Active");
    assert LineEnd(s, 20) == 20;
    assert LineEnd(s, 19) == 20;
    MatchAtCapturesStatus(s, 0, "3.10", "Active");
  }

  /** Greedy `.*`: with two parenthesised parts on the line, the status runs from the first
      `(` to the last `)`. */
  lemma ParseGreedyExample()
    ensures ParseVersionStatus("Python 3.10 (a) (b)") == ("3.10", "a) (b")
  {
    var s := "Python 3.10 (a) (b)";
    assert SpellsAt(s, 0, "3.10", "a) (b");
    assert LineEnd(s, 19) == 19;
    assert LineEnd(s, 18) == 19;
    MatchAtCapturesStatus(s, 0, "3.10", "a) (b");
  }

  /** A text that does not is kept whole as the version, with an empty status. */
  lemma ParseFallbackExample()
    ensures ParseVersionStatus("Legacy 2.x") == ("Legacy 2.x", "")
  {
    var s := "Legacy 2.x";
    forall j | 0 <= j <= |s| ensures MatchAt(s, j).None? {
      if j <= 1 {
        assert s[j..j + 7][0] == s[j] != 'P';
      }
      assert !HeadAt(s, j);
    }
  }
}
