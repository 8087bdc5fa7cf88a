/**
 The walk of `extract_images_and_captions`: every run of every paragraph,
 in document order, threading the sequential image index, and producing
 one record per image-bearing run that says what happened to its image.
 Filesystem effects that can fail are inputs (`FileSystem`).
 */
module Extractor {
  import opened Wrappers
  import opened Text
  import opened Docx
  import opened Naming

  /** The two destination directories: `output_dir` and `output_dir/formula`. */
  datatype Folder = OutputDir | FormulaDir

  /** A file `name` inside one of the two destination directories. */
  datatype Path = Path(folder: Folder, name: string)

  /** A run's position: the paragraph's index and the run's index in it. */
  datatype Pos = Pos(paragraph: nat, run: nat)

  /** What the filesystem and the image library do for the image at each
      run position: the writes that raise, the metafiles PIL cannot decode,
      and the renames that raise although their source file exists. */
  datatype FileSystem = FileSystem(writeFails: set<Pos>, convertFails: set<Pos>, renameFails: set<Pos>)

  /** What happened to the image of one image-bearing run. */
  datatype Outcome =
      /** No image relationship links to the run, or the first that does
          has no bytes: nothing is written and the index is not used. */
    | Unresolved
      /** Writing `attempted` raised: the index is not used up. */
    | WriteFailed(index: nat, source: nat, attempted: Path)
      /** `written` was written with the bytes of relationship `source`;
          `current` is its path after the metafile conversion step,
          `renameTo` the caption-derived target, and `onDisk` where the
          image's file is once this image has been handled (none when a
          failed conversion lost it). A later image's write or rename may
          still replace the file at that path. */
    | Saved(index: nat, source: nat, written: Path, current: Path, renameTo: Option<Path>, onDisk: Option<Path>)
  {
    /** A relationship was resolved and a write attempted. */
    predicate Attempted() {
      !Unresolved?
    }

    /** The sequentially named path the write went to. */
    function Target(): Path
      requires Attempted()
    {
      if WriteFailed? then attempted else written
    }
  }

  datatype Record = Record(at: Pos, outcome: Outcome)

  /** The records of a walk and the image index it leaves behind. */
  datatype Plan = Plan(records: seq<Record>, next: nat)

  /** Payloads of at most this many bytes are taken for formula renderings. */
  const FormulaLimit := 1024

  // ---------------------------------------------------------------------
  // The specification of one record
  // ---------------------------------------------------------------------

  /** The run at `at` exists and carries image markup. */
  predicate ImageRunAt(doc: Document, at: Pos) {
    && at.paragraph < |doc.paragraphs|
    && at.run < |doc.paragraphs[at.paragraph].runs|
    && ContainsImage(doc.paragraphs[at.paragraph].runs[at.run])
  }

  /** Resolution: a record is unresolved exactly when no relationship links
      to the run or the first that does is empty; otherwise its source is
      that first linking relationship. */
  ghost predicate Resolved(rels: seq<Relationship>, markup: string, o: Outcome) {
    if o.Unresolved? then
      || (forall j :: 0 <= j < |rels| ==> !Links(rels[j], markup))
      || (exists i :: FirstLink(rels, markup, i) && |rels[i].blob| == 0)
    else
      FirstLink(rels, markup, o.source) && |rels[o.source].blob| > 0
  }

  /** Routing and naming of the write: small payloads go to the formula
      folder, the name is `image_<index>.<extension>`, and the write fails
      exactly where the filesystem makes it fail. */
  ghost predicate Written(fs: FileSystem, at: Pos, rel: Relationship, o: Outcome)
    requires o.Attempted()
  {
    var t := o.Target();
    && (t.folder == FormulaDir <==> |rel.blob| <= FormulaLimit)
    && t.name == ImageName(o.index, Extension(rel.contentType))
    && (o.WriteFailed? <==> at in fs.writeFails)
  }

  /** What follows a successful write: metafiles move to
      `image_<index>.png`, a caption from the next paragraph gives the
      rename target `<sanitised caption>.png` in the same folder, and the
      file is then at that target, at its current path, or nowhere when
      the conversion failed (the original is removed regardless). */
  ghost predicate Placed(cc: CharClass, fs: FileSystem, paragraphs: seq<Paragraph>, at: Pos, ext: string, o: Outcome)
    requires o.Saved?
  {
    var folder := o.written.folder;
    var lost := IsLegacy(ext) && at in fs.convertFails;
    && o.current == (if IsLegacy(ext) then Path(folder, ImageName(o.index, "png")) else o.written)
    && (o.renameTo.Some? <==> HasCaptionText(cc, paragraphs, at.paragraph))
    && (o.renameTo.Some? ==>
          o.renameTo.value == Path(folder, Sanitize(cc, Strip(cc, paragraphs[at.paragraph + 1].text)) + ".png"))
    && (lost ==> o.onDisk == None)
    && (!lost && o.renameTo.Some? && at !in fs.renameFails ==> o.onDisk == o.renameTo)
    && (!lost && (o.renameTo.None? || at in fs.renameFails) ==> o.onDisk == Some(o.current))
  }

  /** A record says truthfully what the extractor does with the image of
      the run it names. */
  ghost predicate Faithful(cc: CharClass, fs: FileSystem, doc: Document, rec: Record) {
    var at := rec.at;
    && ImageRunAt(doc, at)
    && Resolved(doc.rels, doc.paragraphs[at.paragraph].runs[at.run].markup, rec.outcome)
    && (rec.outcome.Attempted() ==> Written(fs, at, doc.rels[rec.outcome.source], rec.outcome))
    && (rec.outcome.Saved? ==> Placed(cc, fs, doc.paragraphs, at, Extension(doc.rels[rec.outcome.source].contentType), rec.outcome))
  }

  /** Every record is faithful; in particular every attempted write names a
      relationship of the table. The trigger keeps the solver from unfolding
      `Faithful` for every index term it meets. */
  ghost predicate AllFaithful(cc: CharClass, fs: FileSystem, doc: Document, records: seq<Record>) {
    && (forall k {:trigger Faithful(cc, fs, doc, records[k])} :: 0 <= k < |records| ==> Faithful(cc, fs, doc, records[k]))
    && (forall k :: 0 <= k < |records| && records[k].outcome.Attempted() ==> records[k].outcome.source < |doc.rels|)
  }

  // ---------------------------------------------------------------------
  // The index counter and the positions covered
  // ---------------------------------------------------------------------

  /** The number of records whose image was saved. */
  function SavedCount(records: seq<Record>): nat
    decreases |records|
  {
    if |records| == 0 then 0
    else SavedCount(records[..|records| - 1]) + (if records[|records| - 1].outcome.Saved? then 1 else 0)
  }

  lemma {:induction false} SavedCountAppend(a: seq<Record>, b: seq<Record>)
    ensures SavedCount(a + b) == SavedCount(a) + SavedCount(b)
    decreases |b|
  {
    if |b| == 0 {
      assert a + b == a;
    } else {
      assert (a + b)[..|a + b| - 1] == a + b[..|b| - 1];
      SavedCountAppend(a, b[..|b| - 1]);
    }
  }

  /** Every write uses the index `start` plus the number of images saved
      before it. */
  ghost predicate Numbered(records: seq<Record>, start: nat) {
    forall k :: 0 <= k < |records| && records[k].outcome.Attempted() ==>
      records[k].outcome.index == start + SavedCount(records[..k])
  }

  lemma NumberedAppend(a: seq<Record>, b: seq<Record>, start: nat)
    requires Numbered(a, start) && Numbered(b, start + SavedCount(a))
    ensures Numbered(a + b, start)
  {
    forall k | 0 <= k < |a + b| && (a + b)[k].outcome.Attempted()
      ensures (a + b)[k].outcome.index == start + SavedCount((a + b)[..k])
    {
      if k < |a| {
        assert (a + b)[..k] == a[..k];
      } else {
        assert (a + b)[..k] == a + b[..k - |a|];
        SavedCountAppend(a, b[..k - |a|]);
      }
    }
  }

  /** The run positions the records are about, in order. */
  function Positions(records: seq<Record>): (ps: seq<Pos>)
    ensures |ps| == |records|
    ensures forall k :: 0 <= k < |records| ==> ps[k] == records[k].at
  {
    seq(|records|, k requires 0 <= k < |records| => records[k].at)
  }

  lemma PositionsAppend(a: seq<Record>, b: seq<Record>)
    ensures Positions(a + b) == Positions(a) + Positions(b)
  {
    assert forall k :: 0 <= k < |a + b| ==> Positions(a + b)[k] == (Positions(a) + Positions(b))[k];
  }

  /** The image-bearing runs of paragraph `p` from run `r` on, in order. */
  function RunImagePositions(doc: Document, p: nat, r: nat): seq<Pos>
    requires p < |doc.paragraphs| && r <= |doc.paragraphs[p].runs|
    decreases |doc.paragraphs[p].runs| - r
  {
    if r == |doc.paragraphs[p].runs| then []
    else
      (if ContainsImage(doc.paragraphs[p].runs[r]) then [Pos(p, r)] else [])
      + RunImagePositions(doc, p, r + 1)
  }

  /** The image-bearing runs from paragraph `p` on, in document order. */
  function ImagePositions(doc: Document, p: nat): seq<Pos>
    requires p <= |doc.paragraphs|
    decreases |doc.paragraphs| - p
  {
    if p == |doc.paragraphs| then []
    else RunImagePositions(doc, p, 0) + ImagePositions(doc, p + 1)
  }

  // ---------------------------------------------------------------------
  // The walk
  // ---------------------------------------------------------------------

  /** The handling of one run (the body of the inner loop). */
  function ProcessRun(cc: CharClass, fs: FileSystem, doc: Document, at: Pos, index: nat): (plan: Plan)
    requires at.paragraph < |doc.paragraphs| && at.run < |doc.paragraphs[at.paragraph].runs|
    ensures Positions(plan.records) == if ImageRunAt(doc, at) then [at] else []
    ensures AllFaithful(cc, fs, doc, plan.records)
    ensures Numbered(plan.records, index)
    ensures plan.next == index + SavedCount(plan.records)
  {
    var run := doc.paragraphs[at.paragraph].runs[at.run];
    if !ContainsImage(run) then Plan([], index)
    else
      var o := HandleImage(cc, fs, doc, at, index);
      var rec := Record(at, o);
      SingleRecord(cc, fs, doc, rec, index);
      Plan([rec], if o.Saved? then index + 1 else index)
  }

  /** A faithful record that writes with `index` is, on its own, a plan
      starting at `index`. */
  lemma SingleRecord(cc: CharClass, fs: FileSystem, doc: Document, rec: Record, index: nat)
    requires Faithful(cc, fs, doc, rec)
    requires rec.outcome.Attempted() ==> rec.outcome.index == index
    ensures AllFaithful(cc, fs, doc, [rec])
    ensures Numbered([rec], index)
    ensures SavedCount([rec]) == if rec.outcome.Saved? then 1 else 0
    ensures Positions([rec]) == [rec.at]
  {
    assert [rec][0] == rec;
    assert [rec][..0] == [];
  }

  /** The handling of an image-bearing run: resolution, then the write. */
  function HandleImage(cc: CharClass, fs: FileSystem, doc: Document, at: Pos, index: nat): (o: Outcome)
    requires ImageRunAt(doc, at)
    ensures Faithful(cc, fs, doc, Record(at, o))
    ensures o.Attempted() ==> o.index == index
  {
    var markup := doc.paragraphs[at.paragraph].runs[at.run].markup;
    match Resolve(doc.rels, markup)
    case None => Unresolved
    case Some(i) =>
      if |doc.rels[i].blob| == 0 then Unresolved
      else WriteImage(cc, fs, doc.paragraphs, at, doc.rels[i], i, index)
  }

  /** Writing the resolved payload under its sequential name. */
  function WriteImage(cc: CharClass, fs: FileSystem, paragraphs: seq<Paragraph>, at: Pos, rel: Relationship, i: nat, index: nat): (o: Outcome)
    ensures o.Attempted() && o.source == i && o.index == index
    ensures Written(fs, at, rel, o)
    ensures o.Saved? ==> Placed(cc, fs, paragraphs, at, Extension(rel.contentType), o)
  {
    var folder := if |rel.blob| <= FormulaLimit then FormulaDir else OutputDir;
    var ext := Extension(rel.contentType);
    var written := Path(folder, ImageName(index, ext));
    if at in fs.writeFails then WriteFailed(index, i, written)
    else AfterWrite(cc, fs, paragraphs, at, written, ext, i, index)
  }

  /** The metafile conversion and the caption rename after a successful
      write of `written`. */
  function AfterWrite(cc: CharClass, fs: FileSystem, paragraphs: seq<Paragraph>, at: Pos, written: Path, ext: string, i: nat, index: nat): (o: Outcome)
    requires written.name == ImageName(index, ext)
    ensures o.Saved? && o.written == written && o.source == i && o.index == index
    ensures Placed(cc, fs, paragraphs, at, ext, o)
  {
    var legacy := IsLegacy(ext);
    var current := if legacy then Path(written.folder, SplitExtRoot(written.name) + ".png") else written;
    var present := !legacy || at !in fs.convertFails;
    var renameTo :=
      match Caption(cc, paragraphs, at.paragraph)
      case Some(c) => Some(Path(written.folder, Sanitize(cc, c) + ".png"))
      case None => None;
    var onDisk :=
      if !present then None
      else if renameTo.Some? && at !in fs.renameFails then renameTo
      else Some(current);
    assert legacy ==> current == Path(written.folder, ImageName(index, "png")) by {
      if legacy {
        ConvertedName(index, ext);
      }
    }
    Saved(index, i, written, current, renameTo, onDisk)
  }

  /** The runs of paragraph `p` from run `r` on. */
  function ProcessRuns(cc: CharClass, fs: FileSystem, doc: Document, p: nat, r: nat, index: nat): (plan: Plan)
    requires p < |doc.paragraphs| && r <= |doc.paragraphs[p].runs|
    ensures Positions(plan.records) == RunImagePositions(doc, p, r)
    ensures AllFaithful(cc, fs, doc, plan.records)
    ensures Numbered(plan.records, index)
    ensures plan.next == index + SavedCount(plan.records)
    decreases |doc.paragraphs[p].runs| - r
  {
    if r == |doc.paragraphs[p].runs| then Plan([], index)
    else
      var head := ProcessRun(cc, fs, doc, Pos(p, r), index);
      var tail := ProcessRuns(cc, fs, doc, p, r + 1, head.next);
      Concatenate(cc, fs, doc, head, tail, index);
      Plan(head.records + tail.records, tail.next)
  }

  /** The paragraphs from `p` on. */
  function ProcessParagraphs(cc: CharClass, fs: FileSystem, doc: Document, p: nat, index: nat): (plan: Plan)
    requires p <= |doc.paragraphs|
    ensures Positions(plan.records) == ImagePositions(doc, p)
    ensures AllFaithful(cc, fs, doc, plan.records)
    ensures Numbered(plan.records, index)
    ensures plan.next == index + SavedCount(plan.records)
    decreases |doc.paragraphs| - p
  {
    if p == |doc.paragraphs| then Plan([], index)
    else
      var head := ProcessRuns(cc, fs, doc, p, 0, index);
      var tail := ProcessParagraphs(cc, fs, doc, p + 1, head.next);
      Concatenate(cc, fs, doc, head, tail, index);
      Plan(head.records + tail.records, tail.next)
  }

  /** Two consecutive stretches of the walk make one. */
  lemma Concatenate(cc: CharClass, fs: FileSystem, doc: Document, head: Plan, tail: Plan, index: nat)
    requires AllFaithful(cc, fs, doc, head.records)
    requires AllFaithful(cc, fs, doc, tail.records)
    requires Numbered(head.records, index) && head.next == index + SavedCount(head.records)
    requires Numbered(tail.records, head.next) && tail.next == head.next + SavedCount(tail.records)
    ensures Positions(head.records + tail.records) == Positions(head.records) + Positions(tail.records)
    ensures AllFaithful(cc, fs, doc, head.records + tail.records)
    ensures Numbered(head.records + tail.records, index)
    ensures tail.next == index + SavedCount(head.records + tail.records)
  {
    PositionsAppend(head.records, tail.records);
    NumberedAppend(head.records, tail.records, index);
    SavedCountAppend(head.records, tail.records);
  }

  /** What the walk over the whole document promises: its records follow
      the image-bearing runs in document order, each says truthfully what
      happened to its run's image, the index starts at 1 and every write
      uses 1 plus the number of images saved before it, and the index left
      behind is 1 plus the number saved. */
  ghost predicate Sound(cc: CharClass, fs: FileSystem, doc: Document, plan: Plan) {
    && Positions(plan.records) == ImagePositions(doc, 0)
    && AllFaithful(cc, fs, doc, plan.records)
    && Numbered(plan.records, 1)
    && plan.next == 1 + SavedCount(plan.records)
  }

  /** `extract_images_and_captions`: the walk over the whole document with
      the index starting at 1. */
  function Extract(cc: CharClass, fs: FileSystem, doc: Document): (plan: Plan)
    ensures Sound(cc, fs, doc, plan)
  {
    ProcessParagraphs(cc, fs, doc, 0, 1)
  }
}
