/** The location reference of a note heading: the first match of the
    regular expression `(Page|Location) (\d+)` in the heading's text
    (main.ts:47-48, 51). */
module Location {
  import opened Wrappers
  import opened Strings

  /** The two capture groups of a match. */
  datatype LocationMatch = LocationMatch(kind: string, number: string)

  predicate HasAt(s: string, k: nat, p: string) {
    k + |p| <= |s| && s[k..k + |p|] == p
  }

  /** The pattern can match starting at index `k`: one of the two labels,
      one space, and at least one ASCII digit. */
  predicate MatchesAt(s: string, k: nat) {
    (HasAt(s, k, "Page ") && k + 5 < |s| && IsDigit(s[k + 5]))
    || (HasAt(s, k, "Location ") && k + 9 < |s| && IsDigit(s[k + 9]))
  }

  /** `k` is the leftmost index where the pattern matches. */
  predicate FirstMatchAt(s: string, k: nat) {
    k < |s| && MatchesAt(s, k) && forall j :: 0 <= j < k ==> !MatchesAt(s, j)
  }

  /** `m` is the text the pattern consumes at `k`: its label, a space and
      its number, and the number is not followed by another digit (`\d+`
      is greedy). */
  predicate MatchedText(s: string, k: nat, m: LocationMatch) {
    HasAt(s, k, m.kind + " " + m.number)
    && (var e := k + |m.kind| + 1 + |m.number|; e == |s| || !IsDigit(s[e]))
  }

  predicate WellFormed(m: LocationMatch) {
    (m.kind == "Page" || m.kind == "Location") && m.number != [] && AllDigits(m.number)
  }

  /** The scan of the regular-expression engine: try every start index
      from `i` on, in order. */
  function FindFrom(s: string, i: nat): (r: Option<nat>)
    requires i <= |s|
    ensures r.Some? ==> i <= r.value < |s| && MatchesAt(s, r.value)
    ensures r.Some? ==> forall k :: i <= k < r.value ==> !MatchesAt(s, k)
    ensures r.None? ==> forall k :: i <= k < |s| ==> !MatchesAt(s, k)
    decreases |s| - i
  {
    if i == |s| then None
    else if MatchesAt(s, i) then Some(i)
    else FindFrom(s, i + 1)
  }

  /** The greedy `\d+`: the longest run of digits starting at `j`. */
  function DigitRun(s: string, j: nat): (r: string)
    requires j <= |s|
    ensures j + |r| <= |s| && r == s[j..j + |r|] && AllDigits(r)
    ensures j + |r| == |s| || !IsDigit(s[j + |r|])
    decreases |s| - j
  {
    if j < |s| && IsDigit(s[j]) then [s[j]] + DigitRun(s, j + 1) else []
  }

  /** The groups the pattern captures when it matches at `k`: the
      alternation tries `Page` before `Location`. */
  function GroupsAt(s: string, k: nat): (m: LocationMatch)
    requires k < |s| && MatchesAt(s, k)
  {
    var kind := if HasAt(s, k, "Page ") && k + 5 < |s| && IsDigit(s[k + 5])
                then "Page" else "Location";
    LocationMatch(kind, DigitRun(s, k + |kind| + 1))
  }

  lemma GroupsAtMatched(s: string, k: nat)
    requires k < |s| && MatchesAt(s, k)
    ensures WellFormed(GroupsAt(s, k)) && MatchedText(s, k, GroupsAt(s, k))
  {
    var m := GroupsAt(s, k);
    var j := k + |m.kind| + 1;
    assert IsDigit(s[j]);
    assert m.number != [];
    assert s[k..j] == m.kind + " ";
    assert s[j..j + |m.number|] == m.number;
    assert s[k..j + |m.number|] == s[k..j] + s[j..j + |m.number|];
  }

  /** `text.match(/(Page|Location) (\d+)/)`: `None` exactly when the
      pattern matches nowhere; otherwise the groups of the leftmost match. */
  function MatchLocation(s: string): (r: Option<LocationMatch>)
    ensures r.None? <==> forall k :: 0 <= k < |s| ==> !MatchesAt(s, k)
    ensures r.Some? ==> WellFormed(r.value)
    ensures r.Some? ==> exists k: nat :: FirstMatchAt(s, k) && MatchedText(s, k, r.value)
  {
    match FindFrom(s, 0)
    case None => None
    case Some(k) =>
      GroupsAtMatched(s, k);
      assert FirstMatchAt(s, k);
      Some(GroupsAt(s, k))
  }

  lemma {:induction false} DigitRunUnique(s: string, j: nat, d: string)
    requires j + |d| <= |s| && s[j..j + |d|] == d && AllDigits(d)
    requires j + |d| == |s| || !IsDigit(s[j + |d|])
    ensures DigitRun(s, j) == d
    decreases |d|
  {
    if d == [] {
    } else {
      assert s[j] == d[0];
      assert s[j + 1..j + 1 + |d[1..]|] == d[1..];
      DigitRunUnique(s, j + 1, d[1..]);
    }
  }

  lemma FirstMatchUnique(s: string, k: nat, k': nat)
    requires FirstMatchAt(s, k) && FirstMatchAt(s, k')
    ensures k == k'
  {
  }

  /** Reference characterisation: a well-formed match whose text starts at
      the leftmost matching index is exactly what `MatchLocation` returns.
      With the contract of `MatchLocation` this makes the two descriptions
      equivalent. */
  lemma MatchLocationUnique(s: string, k: nat, m: LocationMatch)
    requires FirstMatchAt(s, k) && MatchedText(s, k, m) && WellFormed(m)
    ensures MatchLocation(s) == Some(m)
  {
    var m' := MatchLocation(s).value;
    var k': nat :| FirstMatchAt(s, k') && MatchedText(s, k', m');
    FirstMatchUnique(s, k, k');
    SameGroups(s, k, m, m');
  }

  /** The text at one index determines the groups. */
  lemma SameGroups(s: string, k: nat, m: LocationMatch, m': LocationMatch)
    requires MatchedText(s, k, m) && WellFormed(m)
    requires MatchedText(s, k, m') && WellFormed(m')
    ensures m == m'
  {
    MatchedKind(s, k, m);
    MatchedKind(s, k, m');
    SameKind(m.kind, m'.kind);
    MatchedNumber(s, k, m);
    MatchedNumber(s, k, m');
  }

  lemma MatchedKind(s: string, k: nat, m: LocationMatch)
    requires MatchedText(s, k, m) && WellFormed(m)
    ensures s[k] == m.kind[0]
  {
    MatchedPieces(s, k, m);
  }

  lemma MatchedNumber(s: string, k: nat, m: LocationMatch)
    requires MatchedText(s, k, m) && WellFormed(m)
    ensures k + |m.kind| + 1 <= |s| && DigitRun(s, k + |m.kind| + 1) == m.number
  {
    MatchedPieces(s, k, m);
    DigitRunUnique(s, k + |m.kind| + 1, m.number);
  }

  lemma SameKind(a: string, b: string)
    requires a == "Page" || a == "Location"
    requires b == "Page" || b == "Location"
    requires a[0] == b[0]
    ensures a == b
  {
    assert "Page"[0] == 'P' && "Location"[0] == 'L';
  }

  lemma MatchedPieces(s: string, k: nat, m: LocationMatch)
    requires MatchedText(s, k, m) && WellFormed(m)
    ensures s[k] == m.kind[0]
    ensures var j := k + |m.kind| + 1;
      j + |m.number| <= |s| && s[j..j + |m.number|] == m.number
      && (j + |m.number| == |s| || !IsDigit(s[j + |m.number|]))
  {
    var p := m.kind + " " + m.number;
    var j := k + |m.kind| + 1;
    assert s[k..k + |p|] == p;
    assert s[k] == p[0];
    assert s[j..j + |m.number|] == p[|m.kind| + 1..];
  }

  /** Every match starts with the first letter of one of the labels. */
  lemma MatchStartsWithLabel(s: string, j: nat)
    requires j < |s| && MatchesAt(s, j)
    ensures s[j] == 'P' || s[j] == 'L'
  {
    if HasAt(s, j, "Page ") {
      assert s[j..j + 5][0] == s[j];
    } else {
      assert s[j..j + 9][0] == s[j];
    }
  }

  lemma NoMatchWithoutLabel(s: string, k: nat)
    requires k <= |s|
    requires forall j :: 0 <= j < k ==> s[j] != 'P' && s[j] != 'L'
    ensures forall j :: 0 <= j < k ==> !MatchesAt(s, j)
  {
    forall j | 0 <= j < k ensures !MatchesAt(s, j) {
      if MatchesAt(s, j) {
        MatchStartsWithLabel(s, j);
      }
    }
  }

  /** A typical highlight heading yields the label `Page` and the number
      `12`. */
  lemma ExampleHeadingMatch()
    ensures MatchLocation("34) Highlight (yellow) - Page 12") == Some(LocationMatch("Page", "12"))
  {
    var s := "34) Highlight (yellow) - Page 12";
    assert forall j :: 0 <= j < 25 ==> s[j] != 'P' && s[j] != 'L';
    NoMatchWithoutLabel(s, 25);
    assert s[25..30] == "Page ";
    assert s[25..32] == "Page 12";
    MatchLocationUnique(s, 25, LocationMatch("Page", "12"));
  }
}
