/**
 The document as the extractor sees it through python-docx: paragraphs of
 runs, and the main part's relationship table in its iteration order.
 */
module Docx {
  import opened Wrappers
  import opened Text

  newtype byte = b: int | 0 <= b < 256

  /** Namespace of DrawingML, where `a:blip` lives. */
  const DrawingMl := "http://schemas.openxmlformats.org/drawingml/2006/main"
  /** Namespace of WordprocessingML, where `w:object` lives. */
  const WordprocessingMl := "http://schemas.openxmlformats.org/wordprocessingml/2006/main"

  /** A namespace-qualified XML element name. */
  datatype QName = QName(namespace: string, local: string)

  /** A run: its serialised XML, and the qualified names of the elements
      nested inside it. */
  datatype Run = Run(markup: string, descendants: set<QName>)

  /** A paragraph: its runs, and the plain text python-docx reports for it. */
  datatype Paragraph = Paragraph(runs: seq<Run>, text: string)

  /** One relationship of the main document part: its id (`rId7`), its
      target reference (`media/image1.png`), and the content type and
      bytes of the part it points to. */
  datatype Relationship = Relationship(id: string, targetRef: string, contentType: string, blob: seq<byte>)

  datatype Document = Document(paragraphs: seq<Paragraph>, rels: seq<Relationship>)

  /** The run holds an `a:blip` or a `w:object` element at any depth. */
  predicate ContainsImage(run: Run) {
    QName(DrawingMl, "blip") in run.descendants || QName(WordprocessingMl, "object") in run.descendants
  }

  /** The namespace matters as much as the local name: a run holds an
      image exactly when some element in it is a `blip` in DrawingML or an
      `object` in WordprocessingML. A `blip` or `object` in another
      namespace does not count, and a run whose elements all lie in other
      namespaces holds no image. */
  lemma ImageMarkers(run: Run)
    ensures (forall q :: q in run.descendants ==> q.namespace != DrawingMl && q.namespace != WordprocessingMl) ==> !ContainsImage(run)
    ensures (exists q :: q in run.descendants && q.namespace == DrawingMl && q.local == "blip") ==> ContainsImage(run)
    ensures (exists q :: q in run.descendants && q.namespace == WordprocessingMl && q.local == "object") ==> ContainsImage(run)
    ensures ((forall q :: q in run.descendants && q.namespace == DrawingMl ==> q.local != "blip") &&
             (forall q :: q in run.descendants && q.namespace == WordprocessingMl ==> q.local != "object")) ==> !ContainsImage(run)
  {
  }

  /** The relationship targets an image and its id occurs, as text, in the
      run's markup. */
  predicate Links(rel: Relationship, markup: string) {
    Contains(rel.targetRef, "image") && Contains(markup, rel.id)
  }

  /** `i` is the first position of the table whose relationship links to
      the run. */
  ghost predicate FirstLink(rels: seq<Relationship>, markup: string, i: int) {
    && 0 <= i < |rels|
    && Links(rels[i], markup)
    && forall j :: 0 <= j < i ==> !Links(rels[j], markup)
  }

  function ResolveFrom(rels: seq<Relationship>, markup: string, k: nat): (r: Option<nat>)
    requires k <= |rels|
    ensures r.Some? ==> k <= r.value < |rels| && Links(rels[r.value], markup)
    ensures r.Some? ==> forall j :: k <= j < r.value ==> !Links(rels[j], markup)
    ensures r.None? ==> forall j :: k <= j < |rels| ==> !Links(rels[j], markup)
    decreases |rels| - k
  {
    if k == |rels| then None
    else if Links(rels[k], markup) then Some(k)
    else ResolveFrom(rels, markup, k + 1)
  }

  /** The relationship the extractor takes for a run: the first in table
      order that links to it, or none when no relationship does. */
  function Resolve(rels: seq<Relationship>, markup: string): (r: Option<nat>)
    ensures r.Some? ==> FirstLink(rels, markup, r.value)
    ensures r.None? <==> forall j :: 0 <= j < |rels| ==> !Links(rels[j], markup)
  {
    ResolveFrom(rels, markup, 0)
  }
}
