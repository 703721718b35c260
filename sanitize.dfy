/** The two character rewrites of the import: removing the characters a file
    name may not contain (main.ts:37-39) and turning every whitespace run of
    a tag into one underscore (main.ts:74-75). */
module Sanitize {
  import opened Strings

  /** The regular-expression class of main.ts:37-39: backslash, slash,
      star, angle brackets, colon, bar, question mark and double quote. */
  predicate IsUnsafe(c: char) {
    c == '\\' || c == '/' || c == '*' || c == '<' || c == '>'
    || c == ':' || c == '|' || c == '?' || c == '"'
  }

  predicate Safe(s: string) {
    forall i :: 0 <= i < |s| ==> !IsUnsafe(s[i])
  }

  /** The global replace of that class by "": every unsafe character removed, the
      others kept in order; a string without unsafe characters is left as
      it is. */
  function StripUnsafe(s: string): string {
    if s == [] then []
    else (if IsUnsafe(s[0]) then [] else [s[0]]) + StripUnsafe(s[1..])
  }

  /** What the strip leaves: no unsafe character, nothing longer than the
      input, and a string that had no unsafe character unchanged. */
  lemma {:induction false} StripUnsafeSpec(s: string)
    ensures var r := StripUnsafe(s);
      Safe(r) && |r| <= |s| && (Safe(s) ==> r == s)
  {
    if s != [] {
      var c, t := s[0], s[1..];
      StripUnsafeSpec(t);
      var h, r := if IsUnsafe(c) then [] else [c], StripUnsafe(t);
      assert StripUnsafe(s) == h + r;
      forall i | 0 <= i < |h + r| ensures !IsUnsafe((h + r)[i]) {
        if i >= |h| {
          assert (h + r)[i] == r[i - |h|];
        }
      }
      if Safe(s) {
        assert forall i :: 0 <= i < |t| ==> t[i] == s[i + 1];
        assert s == [c] + t;
      }
    }
  }

  /** Stripping works character by character: it distributes over
      concatenation. */
  lemma {:induction false} StripUnsafeConcat(a: string, b: string)
    ensures StripUnsafe(a + b) == StripUnsafe(a) + StripUnsafe(b)
    decreases |a|
  {
    if a == [] {
      assert a + b == b;
    } else {
      var c, t := a[0], a[1..];
      assert a == [c] + t;
      assert a + b == [c] + (t + b);
      StripUnsafeCons(c, t);
      StripUnsafeCons(c, t + b);
      StripUnsafeConcat(t, b);
    }
  }

  /** One character in front: kept when it is safe, dropped otherwise. */
  lemma StripUnsafeCons(c: char, s: string)
    ensures StripUnsafe([c] + s) == (if IsUnsafe(c) then [] else [c]) + StripUnsafe(s)
  {
    assert ([c] + s)[0] == c && ([c] + s)[1..] == s;
  }

  /** Stripping an already stripped string changes nothing. */
  lemma StripUnsafeIdempotent(s: string)
    ensures StripUnsafe(StripUnsafe(s)) == StripUnsafe(s)
  {
    StripUnsafeSpec(s);
    StripUnsafeSpec(StripUnsafe(s));
  }

  /** How title, author and publisher are read: trimmed, then stripped. */
  function Sanitized(s: string): (r: string)
    ensures Safe(r) && |r| <= |s|
    ensures Safe(s) ==> r == Trim(s)
  {
    StripUnsafeSpec(Trim(s));
    StripUnsafe(Trim(s))
  }

  /** Because the strip comes after the trim, removing a character can
      uncover whitespace at an end, so sanitising is not idempotent: a word,
      then blanks, then a double quote sanitises to the word and the blanks,
      and sanitising that again drops the blanks. */
  lemma SanitizedNotIdempotent(x: string, w: string)
    requires x != [] && Trimmed(x) && Safe(x)
    requires w != [] && AllWs(w)
    ensures Sanitized(x + w + "\"") == x + w
    ensures Sanitized(Sanitized(x + w + "\"")) == x != x + w
  {
    SanitizedQuoteUncovers(x, w);
    SanitizedDropsWs(x, w);
    assert |x| < |x + w|;
  }

  lemma SanitizedDropsWs(x: string, w: string)
    requires Trimmed(x) && Safe(x) && AllWs(w)
    ensures Sanitized(x + w) == x
  {
    assert [] + x + w == x + w;
    TrimOfPadded([], x, w);
    StripUnsafeSpec(x);
  }

  lemma SanitizedQuoteUncovers(x: string, w: string)
    requires x != [] && Trimmed(x) && Safe(x)
    requires w != [] && AllWs(w)
    ensures Sanitized(x + w + "\"") == x + w
  {
    var s := x + w + "\"";
    TrimmedWithQuote(x, w);
    assert [] + s + [] == s;
    TrimOfPadded([], s, []);
    StripUnsafeConcat(x + w, "\"");
    assert StripUnsafe("\"") == [];
    WsIsSafe(x, w);
    StripUnsafeSpec(x + w);
  }

  lemma TrimmedWithQuote(x: string, w: string)
    requires x != [] && Trimmed(x)
    ensures Trimmed(x + w + "\"")
  {
    var s := x + w + "\"";
    assert s[0] == x[0];
    assert s[|s| - 1] == '"';
  }

  lemma WsIsSafe(x: string, w: string)
    requires Safe(x) && AllWs(w)
    ensures Safe(x + w)
  {
    forall i | 0 <= i < |x + w| ensures !IsUnsafe((x + w)[i]) {
      if i >= |x| {
        var c := w[i - |x|];
        assert IsWs(c);
        assert (x + w)[i] == c;
      }
    }
  }

  /** `s.replace(/\s+/g, "_")`, scanning left to right. */
  function UnderscoreWs(s: string): (r: string)
    ensures NoWs(r) && |r| <= |s|
    decreases |s|
  {
    if s == [] then []
    else if IsWs(s[0]) then "_" + UnderscoreWs(s[LeadingWs(s)..])
    else [s[0]] + UnderscoreWs(s[1..])
  }

  /** A string without whitespace is left as it is. */
  lemma {:induction false} UnderscoreWsNoWs(s: string)
    requires NoWs(s)
    ensures UnderscoreWs(s) == s
    decreases |s|
  {
    if s != [] {
      UnderscoreWsNoWs(s[1..]);
    }
  }

  /** The replacement leaves no whitespace behind, so a second pass is a
      no-op. */
  lemma UnderscoreWsIdempotent(s: string)
    ensures UnderscoreWs(UnderscoreWs(s)) == UnderscoreWs(s)
  {
    UnderscoreWsNoWs(UnderscoreWs(s));
  }

  /** A whole run of whitespace becomes one underscore. */
  lemma UnderscoreWsRun(w: string)
    requires w != [] && AllWs(w)
    ensures UnderscoreWs(w) == "_"
  {
    assert w + [] == w;
    LeadingWsOfPadded(w, []);
  }

  lemma {:induction false} LeadingWsConcat(u: string, v: string)
    requires LeadingWs(u) < |u|
    ensures LeadingWs(u + v) == LeadingWs(u)
    decreases |u|
  {
    assert (u + v)[0] == u[0];
    if IsWs(u[0]) {
      assert (u + v)[1..] == u[1..] + v;
      LeadingWsConcat(u[1..], v);
    }
  }

  /** The replacement distributes over a split that does not cut a
      whitespace run in two. With `UnderscoreWsRun` and the fact that a
      non-whitespace character is kept, this says that every maximal run
      of whitespace becomes exactly one underscore and nothing else
      changes. */
  lemma {:induction false} UnderscoreWsConcat(u: string, v: string)
    requires u == [] || v == [] || !IsWs(u[|u| - 1]) || !IsWs(v[0])
    ensures UnderscoreWs(u + v) == UnderscoreWs(u) + UnderscoreWs(v)
    decreases |u|, 1
  {
    if u == [] {
      assert u + v == v;
    } else if !IsWs(u[0]) {
      KeptThenRest(u, v);
    } else if LeadingWs(u) == |u| {
      WsRunThenRest(u, v);
    } else {
      WsThenRest(u, v);
    }
  }

  lemma {:induction false} KeptThenRest(u: string, v: string)
    requires u != [] && !IsWs(u[0])
    requires v == [] || !IsWs(u[|u| - 1]) || !IsWs(v[0])
    ensures UnderscoreWs(u + v) == UnderscoreWs(u) + UnderscoreWs(v)
    decreases |u|, 0
  {
    assert (u + v)[0] == u[0];
    assert (u + v)[1..] == u[1..] + v;
    UnderscoreWsConcat(u[1..], v);
  }

  lemma {:induction false} WsThenRest(u: string, v: string)
    requires u != [] && IsWs(u[0]) && LeadingWs(u) < |u|
    requires v == [] || !IsWs(u[|u| - 1]) || !IsWs(v[0])
    ensures UnderscoreWs(u + v) == UnderscoreWs(u) + UnderscoreWs(v)
    decreases |u|, 0
  {
    var k := LeadingWs(u);
    LeadingWsConcat(u, v);
    assert (u + v)[0] == u[0];
    assert (u + v)[k..] == u[k..] + v;
    UnderscoreWsConcat(u[k..], v);
  }

  lemma WsRunThenRest(u: string, v: string)
    requires u != [] && LeadingWs(u) == |u|
    requires v == [] || !IsWs(v[0])
    ensures UnderscoreWs(u + v) == UnderscoreWs(u) + UnderscoreWs(v)
  {
    assert u[..|u|] == u;
    LeadingWsOfPadded(u, v);
    assert (u + v)[0] == u[0];
    assert (u + v)[|u|..] == v;
    assert UnderscoreWs(u + v) == "_" + UnderscoreWs(v);
    assert u[|u|..] == [];
    assert UnderscoreWs(u) == "_";
  }
}
