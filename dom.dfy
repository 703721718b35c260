/** The parsed export page as the importer sees it: the body's elements as
    one sequence of siblings in document order, and the few selection
    operations main.ts:37-58 performs on them. */
module Dom {

  /** One element: its class names, how many `span` children it has, and
      its text content (the concatenated text of everything inside it). */
  datatype Elem = Elem(classes: set<string>, spanChildren: nat, text: string)

  const BookTitle := "bookTitle"
  const Authors := "authors"
  const Publisher := "publisher"
  const NoteHeading := "noteHeading"
  const NoteText := "noteText"
  const SectionHeading := "sectionHeading"

  predicate HasClass(e: Elem, c: string) {
    c in e.classes
  }

  /** `.children("span").length` of the sibling at index `j`; an index past
      the end is the empty selection, which has no children. */
  function SpanCountAt(doc: seq<Elem>, j: nat): nat {
    if j < |doc| then doc[j].spanChildren else 0
  }

  /** `.hasClass(c)` of the sibling at index `j`; false for the empty
      selection. */
  predicate HasClassAt(doc: seq<Elem>, j: nat, c: string) {
    j < |doc| && HasClass(doc[j], c)
  }

  /** `.next(".c").text()` where the sibling after is at index `j`: its text
      if it exists and has class `c`, otherwise the empty selection's "". */
  function TextIfClass(doc: seq<Elem>, j: nat, c: string): (r: string)
    ensures r != [] ==> HasClassAt(doc, j, c)
  {
    if HasClassAt(doc, j, c) then doc[j].text else ""
  }

  /** `$(".c").text()`: the texts of all elements with class `c`,
      concatenated in document order. */
  function TextOfClass(doc: seq<Elem>, c: string): string {
    if doc == [] then []
    else
      var last := doc[|doc| - 1];
      TextOfClass(doc[..|doc| - 1], c) + (if HasClass(last, c) then last.text else [])
  }

  lemma {:induction false} TextOfClassConcat(a: seq<Elem>, b: seq<Elem>, c: string)
    ensures TextOfClass(a + b, c) == TextOfClass(a, c) + TextOfClass(b, c)
    decreases |b|
  {
    if b == [] {
      assert a + b == a;
    } else {
      assert (a + b)[..|a + b| - 1] == a + b[..|b| - 1];
      TextOfClassConcat(a, b[..|b| - 1], c);
    }
  }

  /** When exactly one element carries the class, the selection's text is
      that element's text. */
  lemma {:induction false} TextOfClassSingle(doc: seq<Elem>, c: string, i: nat)
    requires i < |doc| && HasClass(doc[i], c)
    requires forall j :: 0 <= j < |doc| && j != i ==> !HasClass(doc[j], c)
    ensures TextOfClass(doc, c) == doc[i].text
  {
    var init := doc[..|doc| - 1];
    assert forall j :: 0 <= j < |init| ==> init[j] == doc[j];
    if i == |doc| - 1 {
      NoneWithClass(init, c);
    } else {
      TextOfClassSingle(init, c, i);
    }
  }

  /** A class the page lacks selects nothing, whose text is "". */
  lemma {:induction false} NoneWithClass(doc: seq<Elem>, c: string)
    ensures (forall i :: 0 <= i < |doc| ==> !HasClass(doc[i], c)) ==> TextOfClass(doc, c) == []
  {
    if doc != [] {
      var init := doc[..|doc| - 1];
      assert forall i :: 0 <= i < |init| ==> init[i] == doc[i];
      NoneWithClass(init, c);
    }
  }
}
