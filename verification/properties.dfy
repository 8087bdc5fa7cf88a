/**
 Consequences of the walk's contract for a whole document: which runs get
 a record and in what order, how the index advances, that the sequential
 names never collide, where payloads are routed, and that a metafile's
 original never survives.
 */
module Properties {
  import opened Wrappers
  import opened Text
  import opened Docx
  import opened Naming
  import opened Extractor

  /** `a` comes strictly before `b` in document order. */
  predicate Before(a: Pos, b: Pos) {
    a.paragraph < b.paragraph || (a.paragraph == b.paragraph && a.run < b.run)
  }

  predicate InDocumentOrder(ps: seq<Pos>) {
    forall i, j :: 0 <= i < j < |ps| ==> Before(ps[i], ps[j])
  }

  lemma {:induction false} RunImagePositionsSpec(doc: Document, p: nat, r: nat)
    requires p < |doc.paragraphs| && r <= |doc.paragraphs[p].runs|
    ensures forall at :: at in RunImagePositions(doc, p, r) <==> ImageRunAt(doc, at) && at.paragraph == p && at.run >= r
    ensures InDocumentOrder(RunImagePositions(doc, p, r))
    decreases |doc.paragraphs[p].runs| - r
  {
    if r < |doc.paragraphs[p].runs| {
      RunImagePositionsSpec(doc, p, r + 1);
    }
  }

  lemma {:induction false} ImagePositionsSpec(doc: Document, p: nat)
    requires p <= |doc.paragraphs|
    ensures forall at :: at in ImagePositions(doc, p) <==> ImageRunAt(doc, at) && at.paragraph >= p
    ensures InDocumentOrder(ImagePositions(doc, p))
    decreases |doc.paragraphs| - p
  {
    if p < |doc.paragraphs| {
      RunImagePositionsSpec(doc, p, 0);
      ImagePositionsSpec(doc, p + 1);
      var a, b := RunImagePositions(doc, p, 0), ImagePositions(doc, p + 1);
      forall i, j | 0 <= i < j < |a + b|
        ensures Before((a + b)[i], (a + b)[j])
      {
        if j < |a| {
        } else if i >= |a| {
          assert (a + b)[i] == b[i - |a|] && (a + b)[j] == b[j - |a|];
        } else {
          assert a[i] in a && b[j - |a|] in b;
        }
      }
    }
  }

  /** The part of a record's contract that concerns resolution. */
  lemma ResolutionFacts(cc: CharClass, fs: FileSystem, doc: Document, plan: Plan, k: nat)
    requires Sound(cc, fs, doc, plan)
    requires k < |plan.records|
    ensures ImageRunAt(doc, plan.records[k].at)
    ensures var at := plan.records[k].at;
      Resolved(doc.rels, doc.paragraphs[at.paragraph].runs[at.run].markup, plan.records[k].outcome)
  {
    assert Faithful(cc, fs, doc, plan.records[k]);
  }

  /** The part of a record's contract that concerns the write. */
  lemma AttemptFacts(cc: CharClass, fs: FileSystem, doc: Document, plan: Plan, k: nat)
    requires Sound(cc, fs, doc, plan)
    requires k < |plan.records| && plan.records[k].outcome.Attempted()
    ensures plan.records[k].outcome.source < |doc.rels|
    ensures Written(fs, plan.records[k].at, doc.rels[plan.records[k].outcome.source], plan.records[k].outcome)
  {
    assert Faithful(cc, fs, doc, plan.records[k]);
  }

  /** The part of a record's contract that concerns what follows a write. */
  lemma SavedFacts(cc: CharClass, fs: FileSystem, doc: Document, plan: Plan, k: nat)
    requires Sound(cc, fs, doc, plan)
    requires k < |plan.records| && plan.records[k].outcome.Saved?
    ensures plan.records[k].outcome.source < |doc.rels|
    ensures var o := plan.records[k].outcome;
      var ext := Extension(doc.rels[o.source].contentType);
      && o.written.name == ImageName(o.index, ext)
      && Placed(cc, fs, doc.paragraphs, plan.records[k].at, ext, o)
  {
    AttemptFacts(cc, fs, doc, plan, k);
    assert Faithful(cc, fs, doc, plan.records[k]);
  }

  /** Exactly the image-bearing runs get a record, one each, in document
      order; a run without `a:blip` or `w:object` gets none. */
  lemma RecordsFollowImageRuns(cc: CharClass, fs: FileSystem, doc: Document, plan: Plan)
    requires Sound(cc, fs, doc, plan)
    ensures forall k :: 0 <= k < |plan.records| ==> ImageRunAt(doc, plan.records[k].at)
    ensures forall at :: ImageRunAt(doc, at) ==> at in Positions(plan.records)
    ensures InDocumentOrder(Positions(plan.records))
  {
    ImagePositionsSpec(doc, 0);
  }

  lemma SavedCountPrefix(records: seq<Record>, i: nat, j: nat)
    requires i < j <= |records| && records[i].outcome.Saved?
    ensures SavedCount(records[..i]) < SavedCount(records[..j])
  {
    assert records[..j] == records[..i] + [records[i]] + records[i + 1..j];
    SavedCountAppend(records[..i] + [records[i]], records[i + 1..j]);
    SavedCountAppend(records[..i], [records[i]]);
    assert [records[i]][..0] == [];
  }

  /** The index grows with every saved image: any write after a saved
      image uses a larger index. */
  lemma SavedIndicesIncrease(cc: CharClass, fs: FileSystem, doc: Document, plan: Plan, i: nat, j: nat)
    requires Sound(cc, fs, doc, plan)
    requires i < j < |plan.records|
    requires plan.records[i].outcome.Saved? && plan.records[j].outcome.Attempted()
    ensures plan.records[i].outcome.index < plan.records[j].outcome.index
  {
    SavedCountPrefix(plan.records, i, j);
  }

  /** A failed write does not use up its index: the next write gets the
      same one. */
  lemma FailedWriteKeepsIndex(cc: CharClass, fs: FileSystem, doc: Document, plan: Plan, i: nat, j: nat)
    requires Sound(cc, fs, doc, plan)
    requires i < j < |plan.records|
    requires plan.records[i].outcome.WriteFailed? && plan.records[j].outcome.Attempted()
    requires forall k :: i < k < j ==> !plan.records[k].outcome.Attempted()
    ensures plan.records[i].outcome.index == plan.records[j].outcome.index
  {
    SameIndexAcrossFailures(plan.records, 1, i, j);
  }

  lemma SameIndexAcrossFailures(rs: seq<Record>, start: nat, i: nat, j: nat)
    requires Numbered(rs, start)
    requires i < j < |rs|
    requires rs[i].outcome.WriteFailed? && rs[j].outcome.Attempted()
    requires forall k :: i < k < j ==> !rs[k].outcome.Attempted()
    ensures rs[i].outcome.index == rs[j].outcome.index
  {
    assert rs[..j] == rs[..i] + rs[i..j];
    SavedCountAppend(rs[..i], rs[i..j]);
    NoneSaved(rs[i..j]);
  }

  lemma {:induction false} NoneSaved(records: seq<Record>)
    requires forall k :: 0 <= k < |records| ==> !records[k].outcome.Saved?
    ensures SavedCount(records) == 0
    decreases |records|
  {
    if |records| > 0 {
      NoneSaved(records[..|records| - 1]);
    }
  }

  /** Two saved images never share their sequential name, before or after
      the metafile conversion. */
  lemma SavedNamesDistinct(cc: CharClass, fs: FileSystem, doc: Document, plan: Plan, i: nat, j: nat)
    requires Sound(cc, fs, doc, plan)
    requires i < j < |plan.records|
    requires plan.records[i].outcome.Saved? && plan.records[j].outcome.Saved?
    ensures plan.records[i].outcome.written != plan.records[j].outcome.written
    ensures plan.records[i].outcome.current != plan.records[j].outcome.current
  {
    var a, b := plan.records[i].outcome, plan.records[j].outcome;
    SavedFacts(cc, fs, doc, plan, i);
    SavedFacts(cc, fs, doc, plan, j);
    SavedIndicesIncrease(cc, fs, doc, plan, i, j);
    var ea := Extension(doc.rels[a.source].contentType);
    var eb := Extension(doc.rels[b.source].contentType);
    ImageNameInjective(a.index, b.index, ea, eb);
    ImageNameInjective(a.index, b.index, "png", eb);
    ImageNameInjective(a.index, b.index, ea, "png");
    ImageNameInjective(a.index, b.index, "png", "png");
  }

  /** Payloads of at most 1024 bytes are written to the formula folder,
      larger ones to the output folder. */
  lemma SizeRouting(cc: CharClass, fs: FileSystem, doc: Document, plan: Plan, k: nat)
    requires Sound(cc, fs, doc, plan)
    requires k < |plan.records| && plan.records[k].outcome.Attempted()
    ensures var o := plan.records[k].outcome;
      o.Target().folder == FormulaDir <==> |doc.rels[o.source].blob| <= 1024
  {
    AttemptFacts(cc, fs, doc, plan, k);
  }

  /** `s` ends with `suffix`. */
  predicate EndsWith(s: string, suffix: string) {
    |suffix| <= |s| && s[|s| - |suffix|..] == suffix
  }

  /** After a metafile is handled, the file it was first written to is gone:
      whatever is left of the image is a `.png`, or nothing. */
  lemma MetafileOriginalRemoved(cc: CharClass, fs: FileSystem, doc: Document, plan: Plan, k: nat)
    requires Sound(cc, fs, doc, plan)
    requires k < |plan.records| && plan.records[k].outcome.Saved?
    requires IsLegacy(Extension(doc.rels[plan.records[k].outcome.source].contentType))
    ensures var o := plan.records[k].outcome;
      o.onDisk != Some(o.written) && (o.onDisk.Some? ==> EndsWith(o.onDisk.value.name, ".png"))
  {
    var rec := plan.records[k];
    SavedFacts(cc, fs, doc, plan, k);
    var ext := Extension(doc.rels[rec.outcome.source].contentType);
    MetafileLeavesPng(cc, fs, doc.paragraphs, rec.at, ext, rec.outcome);
  }

  lemma MetafileLeavesPng(cc: CharClass, fs: FileSystem, paragraphs: seq<Paragraph>, at: Pos, ext: string, o: Outcome)
    requires o.Saved? && IsLegacy(ext) && o.written.name == ImageName(o.index, ext)
    requires Placed(cc, fs, paragraphs, at, ext, o)
    ensures o.onDisk != Some(o.written)
    ensures o.onDisk.Some? ==> EndsWith(o.onDisk.value.name, ".png")
  {
    var w := o.written.name;
    assert w[|w| - 1] == ext[|ext| - 1] == 'f';
    if o.onDisk.Some? {
      var n := o.onDisk.value.name;
      if o.renameTo.Some? && o.onDisk == o.renameTo {
        var c := Sanitize(cc, Strip(cc, paragraphs[at.paragraph + 1].text));
        assert n == c + ".png";
        assert n[|n| - 4..] == ".png";
      } else {
        assert n == ImageName(o.index, "png");
        assert n[|n| - 4..] == ".png";
      }
      assert n[|n| - 1] == 'g';
    }
  }

  /** With a caption in the next paragraph and a file to rename, the image
      is `<sanitised caption>.png` in the folder it was written to once it
      has been handled, whatever its format. */
  lemma CaptionedPath(cc: CharClass, fs: FileSystem, doc: Document, plan: Plan, k: nat)
    requires Sound(cc, fs, doc, plan)
    requires k < |plan.records| && plan.records[k].outcome.Saved?
    requires var rec := plan.records[k];
      && !(IsLegacy(Extension(doc.rels[rec.outcome.source].contentType)) && rec.at in fs.convertFails)
      && rec.at !in fs.renameFails
      && HasCaptionText(cc, doc.paragraphs, rec.at.paragraph)
    ensures var rec := plan.records[k];
      rec.outcome.onDisk == Some(Path(rec.outcome.written.folder,
                                      Sanitize(cc, Strip(cc, doc.paragraphs[rec.at.paragraph + 1].text)) + ".png"))
  {
    var rec := plan.records[k];
    SavedFacts(cc, fs, doc, plan, k);
    var ext := Extension(doc.rels[rec.outcome.source].contentType);
    PlacedWithCaption(cc, fs, doc.paragraphs, rec.at, ext, rec.outcome);
  }

  lemma PlacedWithCaption(cc: CharClass, fs: FileSystem, paragraphs: seq<Paragraph>, at: Pos, ext: string, o: Outcome)
    requires o.Saved? && Placed(cc, fs, paragraphs, at, ext, o)
    requires !(IsLegacy(ext) && at in fs.convertFails) && at !in fs.renameFails
    requires HasCaptionText(cc, paragraphs, at.paragraph)
    ensures o.onDisk == Some(Path(o.written.folder, Sanitize(cc, Strip(cc, paragraphs[at.paragraph + 1].text)) + ".png"))
  {
  }

  /** Without a caption the image keeps its sequential name, a metafile
      under the `.png` extension it was converted to, and a metafile whose
      conversion failed is gone. */
  lemma UncaptionedKeepsSequentialName(cc: CharClass, fs: FileSystem, doc: Document, plan: Plan, k: nat)
    requires Sound(cc, fs, doc, plan)
    requires k < |plan.records| && plan.records[k].outcome.Saved?
    requires !HasCaptionText(cc, doc.paragraphs, plan.records[k].at.paragraph)
    ensures var rec := plan.records[k];
      var o := rec.outcome;
      var ext := Extension(doc.rels[o.source].contentType);
      o.onDisk ==
        if !IsLegacy(ext) then Some(Path(o.written.folder, ImageName(o.index, ext)))
        else if rec.at in fs.convertFails then None
        else Some(Path(o.written.folder, ImageName(o.index, "png")))
  {
    SavedFacts(cc, fs, doc, plan, k);
  }
}
