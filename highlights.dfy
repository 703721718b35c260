/** The highlight pass of main.ts:41-64: every `.noteHeading` with exactly
    one `span` child becomes one block of the note's body, in document
    order, and is counted. */
module Highlights {
  import opened Wrappers
  import opened Strings
  import opened Location
  import opened Dom

  /** One extracted highlight: the location label and number (both "" when
      the heading has no location), the highlighted text, and the user note
      when one follows. */
  datatype Highlight = Highlight(kind: string, number: string, text: string, note: Option<string>)

  /** The shape check of main.ts:45: a note heading with exactly one span. */
  predicate Accepted(doc: seq<Elem>, i: nat)
    requires i < |doc|
  {
    HasClass(doc[i], NoteHeading) && doc[i].spanChildren == 1
  }

  /** The three tests of main.ts:53-57 on the element two places after the
      heading: no span children, not a section heading, and present. */
  predicate NoteFollows(doc: seq<Elem>, i: nat) {
    SpanCountAt(doc, i + 2) == 0 && !HasClassAt(doc, i + 2, SectionHeading) && i + 2 < |doc|
  }

  /** The highlight read for the heading at `i`: the groups of the first
      location match (or two empty strings), the trimmed text of the next
      sibling if it is a `.noteText`, and the note when one follows. */
  function HighlightAt(doc: seq<Elem>, i: nat): Highlight
    requires i < |doc|
  {
    var m := MatchLocation(doc[i].text);
    Highlight(
      if m.Some? then m.value.kind else "",
      if m.Some? then m.value.number else "",
      Trim(TextIfClass(doc, i + 1, NoteText)),
      if NoteFollows(doc, i) then Some(Trim(TextIfClass(doc, i + 3, NoteText))) else None)
  }

  /** What a highlight holds, in terms of the page: the trimmed text of the
      next element if it is a `.noteText`, else ""; a note exactly when the
      element two places on exists, has no span and is not a section
      heading, holding the trimmed text of the element three places on if
      that is a `.noteText`, else "" (the callout is written either way);
      and a location that is empty exactly when the heading text has
      none. */
  lemma HighlightAtSpec(doc: seq<Elem>, i: nat)
    requires i < |doc|
    ensures var h := HighlightAt(doc, i);
      && (h.note.Some? <==> (i + 2 < |doc| && doc[i + 2].spanChildren == 0
                             && !HasClass(doc[i + 2], SectionHeading)))
      && Trimmed(h.text) && (h.note.Some? ==> Trimmed(h.note.value))
      && (HasClassAt(doc, i + 1, NoteText) ==> h.text == Trim(doc[i + 1].text))
      && (!HasClassAt(doc, i + 1, NoteText) ==> h.text == "")
      && (h.note.Some? && HasClassAt(doc, i + 3, NoteText) ==> h.note == Some(Trim(doc[i + 3].text)))
      && (h.note.Some? && !HasClassAt(doc, i + 3, NoteText) ==> h.note == Some(""))
      && (h.kind == "" <==> MatchLocation(doc[i].text).None?)
      && (h.kind != "" ==> WellFormed(LocationMatch(h.kind, h.number)))
      && (h.kind == "" ==> h.number == "")
  {
  }

  /** The callout line of main.ts:59, or nothing. */
  function Callout(note: Option<string>): string {
    match note
    case Some(n) => ">[!" + n + "] \n\n"
    case None => ""
  }

  /** The block main.ts:51, 59 and 62 append for one highlight. */
  function Render(h: Highlight): string {
    h.text + "\n- " + h.kind + " " + h.number + "\n\n" + Callout(h.note) + "---\n\n"
  }

  /** Where the location line of a block ends. */
  function CalloutOffset(h: Highlight): nat {
    |h.text| + 3 + |h.kind| + 1 + |h.number| + 2
  }

  /** A block ends with the rule, and `>[!` stands right after its
      location line exactly when the highlight has a note; so the blocks
      with and without a callout cannot be confused. */
  lemma RenderShape(h: Highlight)
    ensures var r, p := Render(h), CalloutOffset(h);
      p + 5 <= |r| && r[|r| - 5..] == "---\n\n"
      && (h.note.Some? <==> (p + 3 <= |r| && r[p..p + 3] == ">[!"))
  {
    var r, p := Render(h), CalloutOffset(h);
    var tail := Callout(h.note) + "---\n\n";
    assert r == (h.text + "\n- " + h.kind + " " + h.number + "\n\n") + tail;
    assert r[p..] == tail;
    assert r[p..p + 3] == tail[..3];
    if h.note.Some? {
      assert tail[..3] == ">[!";
    } else {
      assert tail[..3] == "---";
    }
  }

  /** Strings one after the other: how `content +=` builds the body. */
  function Concat(ss: seq<string>): string {
    if ss == [] then "" else Concat(ss[..|ss| - 1]) + ss[|ss| - 1]
  }

  /** The block of each highlight, in the same order. */
  function Blocks(hs: seq<Highlight>): (bs: seq<string>)
    ensures |bs| == |hs| && forall j :: 0 <= j < |hs| ==> bs[j] == Render(hs[j])
  {
    seq(|hs|, j requires 0 <= j < |hs| => Render(hs[j]))
  }

  /** The indices of the headings that pass the shape check among the
      first `n` elements: in increasing order, and exactly those. */
  function AcceptedIndices(doc: seq<Elem>, n: nat): (r: seq<nat>)
    requires n <= |doc|
    ensures forall j :: 0 <= j < |r| ==> r[j] < n
    ensures forall j, k :: 0 <= j < k < |r| ==> r[j] < r[k]
    ensures forall i :: i in r <==> 0 <= i < n && Accepted(doc, i)
  {
    if n == 0 then []
    else AcceptedIndices(doc, n - 1) + (if Accepted(doc, n - 1) then [n - 1] else [])
  }

  /** The highlights of the first `n` elements: one per accepted heading,
      in the order of those headings. */
  function Extracted(doc: seq<Elem>, n: nat): (hs: seq<Highlight>)
    requires n <= |doc|
  {
    if n == 0 then []
    else Extracted(doc, n - 1) + (if Accepted(doc, n - 1) then [HighlightAt(doc, n - 1)] else [])
  }

  /** The highlights read at the given indices, in their order. */
  function HighlightsAt(doc: seq<Elem>, ix: seq<nat>): (hs: seq<Highlight>)
    requires forall j :: 0 <= j < |ix| ==> ix[j] < |doc|
    ensures |hs| == |ix| && forall j :: 0 <= j < |ix| ==> hs[j] == HighlightAt(doc, ix[j])
  {
    seq(|ix|, j requires 0 <= j < |ix| => HighlightAt(doc, ix[j]))
  }

  /** Extracting the first `n` elements reads one highlight at each
      accepted index and nothing elsewhere. */
  lemma {:induction false} ExtractedAtAccepted(doc: seq<Elem>, n: nat)
    requires n <= |doc|
    ensures Extracted(doc, n) == HighlightsAt(doc, AcceptedIndices(doc, n))
  {
    if n > 0 {
      ExtractedAtAccepted(doc, n - 1);
      if Accepted(doc, n - 1) {
        ExtractedAtAcceptedStep(doc, n - 1);
      }
    }
  }

  /** An accepted heading adds its highlight to both sides at once. */
  lemma ExtractedAtAcceptedStep(doc: seq<Elem>, i: nat)
    requires i < |doc| && Accepted(doc, i)
    requires Extracted(doc, i) == HighlightsAt(doc, AcceptedIndices(doc, i))
    ensures Extracted(doc, i + 1) == HighlightsAt(doc, AcceptedIndices(doc, i + 1))
  {
    var ix := AcceptedIndices(doc, i);
    assert AcceptedIndices(doc, i + 1) == ix + [i];
    HighlightsAtSnoc(doc, ix, i);
  }

  /** One more index reads one more highlight, at the end. */
  lemma HighlightsAtSnoc(doc: seq<Elem>, ix: seq<nat>, i: nat)
    requires forall j :: 0 <= j < |ix| ==> ix[j] < |doc|
    requires i < |doc|
    ensures HighlightsAt(doc, ix + [i]) == HighlightsAt(doc, ix) + [HighlightAt(doc, i)]
  {
    var a, b := HighlightsAt(doc, ix + [i]), HighlightsAt(doc, ix) + [HighlightAt(doc, i)];
    forall j | 0 <= j < |a| ensures a[j] == b[j] {
      if j < |ix| {
        assert (ix + [i])[j] == ix[j];
      }
    }
  }

  /** The j-th highlight is read from the j-th accepted heading: each
      accepted heading yields exactly one highlight, in document order, and
      every other element yields none. */
  lemma HighlightsFollowHeadings(doc: seq<Elem>, n: nat)
    requires n <= |doc|
    ensures |Extracted(doc, n)| == |AcceptedIndices(doc, n)|
    ensures forall j :: 0 <= j < |Extracted(doc, n)| ==>
              Extracted(doc, n)[j] == HighlightAt(doc, AcceptedIndices(doc, n)[j])
  {
    ExtractedAtAccepted(doc, n);
  }

  /** The body text is the blocks of the highlights, one after the other. */
  function Content(doc: seq<Elem>): string {
    Concat(Blocks(Extracted(doc, |doc|)))
  }

  /** The `resaltados` count: one per accepted heading. */
  function Count(doc: seq<Elem>): (c: nat)
    ensures c == |AcceptedIndices(doc, |doc|)|
  {
    HighlightsFollowHeadings(doc, |doc|);
    |Extracted(doc, |doc|)|
  }

  /** The indices a list holds. */
  function Members(r: seq<nat>): set<nat> {
    set x | x in r
  }

  /** A strictly increasing list repeats nothing, so it is as long as the
      set of its members. */
  lemma {:induction false} IncreasingSize(r: seq<nat>)
    requires forall j, k :: 0 <= j < k < |r| ==> r[j] < r[k]
    ensures |Members(r)| == |r|
  {
    if r != [] {
      var p, last := r[..|r| - 1], r[|r| - 1];
      IncreasingSize(p);
      assert r == p + [last];
      assert Members(r) == Members(p) + {last};
      assert last !in Members(p) by {
        forall x | x in p ensures x < last {
          var j :| 0 <= j < |p| && p[j] == x;
          assert r[j] < r[|r| - 1];
        }
      }
    }
  }

  /** The `resaltados` count is the number of note headings with exactly
      one span child. */
  lemma CountIsAcceptedHeadings(doc: seq<Elem>)
    ensures Count(doc) == |set i: nat | i < |doc| && HasClass(doc[i], NoteHeading)
                                                  && doc[i].spanChildren == 1|
  {
    var ix := AcceptedIndices(doc, |doc|);
    IncreasingSize(ix);
    assert Members(ix) == set i: nat | i < |doc| && HasClass(doc[i], NoteHeading)
                                     && doc[i].spanChildren == 1;
  }

  /** The body is the blocks of the accepted headings, one per heading, in
      the order of the headings. */
  lemma ContentFollowsHeadings(doc: seq<Elem>)
    ensures var ix := AcceptedIndices(doc, |doc|);
      Content(doc) == Concat(seq(|ix|, j requires 0 <= j < |ix| => Render(HighlightAt(doc, ix[j]))))
  {
    var ix := AcceptedIndices(doc, |doc|);
    HighlightsFollowHeadings(doc, |doc|);
    assert Blocks(Extracted(doc, |doc|))
        == seq(|ix|, j requires 0 <= j < |ix| => Render(HighlightAt(doc, ix[j])));
  }

  /** The element two places after a heading that receives a callout has no
      span child, so it never passes the shape check itself. */
  lemma CalloutSourceNotAccepted(doc: seq<Elem>, i: nat)
    requires i < |doc| && Accepted(doc, i) && NoteFollows(doc, i)
    ensures i + 2 < |doc| && !Accepted(doc, i + 2)
    ensures i + 2 !in AcceptedIndices(doc, |doc|)
  {
  }

  /** A highlight without a location still renders a location line: a
      dash and two spaces (read with HighlightAtSpec: this is the line of a
      heading whose text has no match). */
  lemma UnmatchedLocationLine(h: Highlight)
    requires h.kind == "" && h.number == ""
    ensures Render(h)[|h.text|..CalloutOffset(h)] == "\n-  \n\n"
  {
    var line, tail := h.text + "\n-  \n\n", Callout(h.note) + "---\n\n";
    assert Render(h) == line + tail;
    assert (line + tail)[..|line|] == line;
  }

  /** The pass as main.ts:41-64 runs it: start from an empty body and a
      zero count, and visit the elements in document order. */
  method ExtractHighlights(doc: array<Elem>) returns (content: string, counter: nat)
    ensures content == Content(doc[..])
    ensures counter == Count(doc[..])
  {
    content := "";
    counter := 0;
    var i := 0;
    while i < doc.Length
      invariant i <= doc.Length
      invariant content == Concat(Blocks(Extracted(doc[..], i)))
      invariant counter == |Extracted(doc[..], i)|
    {
      content, counter := VisitHeading(doc, i, content, counter);
      ContentStep(doc[..], i);
      i := i + 1;
    }
    assert doc[..] == doc[..doc.Length];
  }

  /** The callback main.ts:44-63 runs for one element: a heading that fails
      the shape check is skipped; otherwise its text and location, then the
      callout when a note follows, then the rule are appended, and the
      counter goes up by one. */
  method VisitHeading(doc: array<Elem>, i: nat, content: string, counter: nat)
    returns (content': string, counter': nat)
    requires i < doc.Length
    ensures Accepted(doc[..], i) ==>
              content' == content + Render(HighlightAt(doc[..], i)) && counter' == counter + 1
    ensures !Accepted(doc[..], i) ==> content' == content && counter' == counter
  {
    content', counter' := content, counter;
    var e := doc[i];
    assert e == doc[..][i];
    if !(HasClass(e, NoteHeading) && e.spanChildren == 1) {
      return;
    }
    var pageMatch := MatchLocation(e.text);
    var noteText := Trim(TextIfClass(doc[..], i + 1, NoteText));
    var kind := if pageMatch.Some? then pageMatch.value.kind else "";
    var number := if pageMatch.Some? then pageMatch.value.number else "";
    var line := noteText + "\n- " + kind + " " + number + "\n\n";
    content' := content' + line;
    var callout := "";
    if SpanCountAt(doc[..], i + 2) == 0 && !HasClassAt(doc[..], i + 2, SectionHeading)
       && i + 2 < doc.Length
    {
      var userNote := Trim(TextIfClass(doc[..], i + 3, NoteText));
      callout := ">[!" + userNote + "] \n\n";
      content' := content' + callout;
    } else {
      assert content' + callout == content';
    }
    assert content' == content + line + callout;
    content' := content' + "---\n\n";
    counter' := counter' + 1;
    AppendAssoc(content, line, callout, "---\n\n");
    assert line + callout + "---\n\n" == Render(HighlightAt(doc[..], i));
  }

  lemma AppendAssoc(a: string, b: string, c: string, d: string)
    ensures a + b + c + d == a + (b + c + d)
  {
  }

  /** One more element adds the block of its highlight to the body and one
      to the count when it is an accepted heading, and nothing otherwise. */
  lemma ContentStep(doc: seq<Elem>, i: nat)
    requires i < |doc|
    ensures Accepted(doc, i) ==>
              Concat(Blocks(Extracted(doc, i + 1)))
                == Concat(Blocks(Extracted(doc, i))) + Render(HighlightAt(doc, i))
              && |Extracted(doc, i + 1)| == |Extracted(doc, i)| + 1
    ensures !Accepted(doc, i) ==> Extracted(doc, i + 1) == Extracted(doc, i)
  {
    var hs := Extracted(doc, i);
    if Accepted(doc, i) {
      ConcatBlocksSnoc(hs, HighlightAt(doc, i));
    } else {
      assert hs + [] == hs;
    }
  }

  /** Appending a highlight appends its block. */
  lemma ConcatBlocksSnoc(hs: seq<Highlight>, h: Highlight)
    ensures Concat(Blocks(hs + [h])) == Concat(Blocks(hs)) + Render(h)
  {
    assert Blocks(hs + [h]) == Blocks(hs) + [Render(h)];
    assert (Blocks(hs) + [Render(h)])[..|hs|] == Blocks(hs);
  }

  /** A block without a callout: text, location line, rule. */
  lemma RenderWithoutNote(h: Highlight)
    requires h.note.None?
    ensures Render(h) == h.text + "\n- " + h.kind + " " + h.number + "\n\n---\n\n"
  {
  }

  /** A page holding one accepted heading and its text, and nothing after
      them, yields one block without a callout and a count of one. */
  lemma SingleHighlight(t: string, x: string, m: LocationMatch)
    requires MatchLocation(t) == Some(m) && Trimmed(x)
    ensures var page := [Elem({NoteHeading}, 1, t), Elem({NoteText}, 0, x)];
      Content(page) == x + "\n- " + m.kind + " " + m.number + "\n\n---\n\n" && Count(page) == 1
  {
    var page := [Elem({NoteHeading}, 1, t), Elem({NoteText}, 0, x)];
    SingleHighlightAt(t, x, m);
    RenderWithoutNote(Highlight(m.kind, m.number, x, None));
    assert NoteHeading != NoteText;
    assert Concat(Blocks(Extracted(page, 0))) == "" by {
      assert Blocks([]) == [];
    }
    ContentStep(page, 0);
    ContentStep(page, 1);
  }

  lemma SingleHighlightAt(t: string, x: string, m: LocationMatch)
    requires MatchLocation(t) == Some(m) && Trimmed(x)
    ensures var page := [Elem({NoteHeading}, 1, t), Elem({NoteText}, 0, x)];
      HighlightAt(page, 0) == Highlight(m.kind, m.number, x, None)
  {
    var page := [Elem({NoteHeading}, 1, t), Elem({NoteText}, 0, x)];
    assert [] + x + [] == x;
    TrimOfPadded([], x, []);
  }
}
