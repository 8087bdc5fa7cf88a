/**
 Concrete instances: an ASCII reading of `isalnum`/`isspace`, and the
 extractor's behaviour on small documents.
 */
module Examples {
  import opened Wrappers
  import opened Text
  import opened Docx
  import opened Naming
  import opened Extractor
  import opened Properties

  /** `str.isalnum` and `str.isspace` restricted to ASCII: letters and
      digits; and space, tab, newline, vertical tab, form feed, carriage
      return and the four separators U+001C to U+001F. */
  function Ascii(): CharClass {
    CharClass(
      c => 'a' <= c <= 'z' || 'A' <= c <= 'Z' || '0' <= c <= '9',
      c => c == ' ' || '\t' <= c <= '\r' || '\U{1C}' <= c <= '\U{1F}')
  }

  // The concrete strings below enter each lemma through a `requires`
  // rather than appearing in its `ensures`: a literal in the goal makes the
  // solver unfold `Sanitize` and `Strip` on it eagerly, and the proof then
  // costs far more than checking the characters one by one.

  /** The colon becomes `_`; the spaces are kept. */
  lemma SanitizeFigureCaption(caption: string)
    requires caption == "Figure 1: Test"
    ensures Sanitize(Ascii(), caption) == "Figure 1_ Test"
  {
    var r := Sanitize(Ascii(), caption);
    FigureCaptionHead(caption, r);
    FigureCaptionTail(caption, r);
  }

  lemma FigureCaptionHead(caption: string, r: string)
    requires caption == "Figure 1: Test" && r == Sanitize(Ascii(), caption)
    ensures r[..7] == "Figure "
  {
    assert r[0] == 'F' && r[1] == 'i' && r[2] == 'g' && r[3] == 'u' && r[4] == 'r' && r[5] == 'e' && r[6] == ' ';
  }

  lemma FigureCaptionTail(caption: string, r: string)
    requires caption == "Figure 1: Test" && r == Sanitize(Ascii(), caption)
    ensures r[7..] == "1_ Test"
  {
    assert r[7] == '1' && r[8] == '_' && r[9] == ' ' && r[10] == 'T' && r[11] == 'e' && r[12] == 's' && r[13] == 't';
  }

  /** A document whose only image-bearing run is the first run of the first
      paragraph, linked to the table's only relationship, a PNG of more than
      1024 bytes, with text in the second paragraph: on a filesystem where
      nothing fails there is one record, saved as `image_1.png` in the
      output folder and renamed to the sanitised caption there. */
  lemma CaptionedPngIsRenamed(cc: CharClass, fs: FileSystem, doc: Document, plan: Plan)
    requires Sound(cc, fs, doc, plan) && fs == FileSystem({}, {}, {})
    requires forall at :: ImageRunAt(doc, at) <==> at == Pos(0, 0)
    requires |doc.paragraphs| >= 2 && !Blank(cc, doc.paragraphs[1].text)
    requires |doc.paragraphs[0].runs| > 0
    requires |doc.rels| == 1 && Links(doc.rels[0], doc.paragraphs[0].runs[0].markup)
    requires |doc.rels[0].blob| > 1024 && doc.rels[0].contentType == "image/png"
    ensures |plan.records| == 1 && plan.records[0].outcome.Saved?
    ensures plan.records[0].outcome.written == Path(OutputDir, "image_1.png")
    ensures plan.records[0].outcome.onDisk == Some(Path(OutputDir, Sanitize(cc, Strip(cc, doc.paragraphs[1].text)) + ".png"))
    ensures plan.next == 2
  {
    PngName(doc.rels[0].contentType);
    CaptionedSingleImage(cc, fs, doc, plan, "image_1.png");
  }

  /** The same scenario for any content type whose extension is not a
      metafile's, with `name` the sequential name of the first image. */
  lemma CaptionedSingleImage(cc: CharClass, fs: FileSystem, doc: Document, plan: Plan, name: string)
    requires Sound(cc, fs, doc, plan) && fs == FileSystem({}, {}, {})
    requires forall at :: ImageRunAt(doc, at) <==> at == Pos(0, 0)
    requires |doc.paragraphs| >= 2 && !Blank(cc, doc.paragraphs[1].text)
    requires |doc.paragraphs[0].runs| > 0
    requires |doc.rels| == 1 && Links(doc.rels[0], doc.paragraphs[0].runs[0].markup)
    requires |doc.rels[0].blob| > 1024
    requires !IsLegacy(Extension(doc.rels[0].contentType))
    requires name == ImageName(1, Extension(doc.rels[0].contentType))
    ensures |plan.records| == 1 && plan.records[0].outcome.Saved?
    ensures plan.records[0].outcome.written == Path(OutputDir, name)
    ensures plan.records[0].outcome.onDisk == Some(Path(OutputDir, Sanitize(cc, Strip(cc, doc.paragraphs[1].text)) + ".png"))
    ensures plan.next == 2
  {
    OneRecord(cc, fs, doc, plan);
    var rec := plan.records[0];
    assert Faithful(cc, fs, doc, rec);
    SingleLinkSaved(cc, fs, doc, rec);
    assert plan.records[..0] == [];
    assert rec.outcome.index == 1;
    SingleSaved(plan.records);
  }

  /** The record of the first run, when the table's only relationship links
      to it with more than 1024 bytes and nothing fails, is a save to the
      output folder renamed after the caption. */
  lemma SingleLinkSaved(cc: CharClass, fs: FileSystem, doc: Document, rec: Record)
    requires fs == FileSystem({}, {}, {}) && rec.at == Pos(0, 0)
    requires Faithful(cc, fs, doc, rec)
    requires |doc.paragraphs| >= 2 && !Blank(cc, doc.paragraphs[1].text)
    requires |doc.paragraphs[0].runs| > 0
    requires |doc.rels| == 1 && Links(doc.rels[0], doc.paragraphs[0].runs[0].markup)
    requires |doc.rels[0].blob| > 1024
    requires !IsLegacy(Extension(doc.rels[0].contentType))
    ensures rec.outcome.Saved? && rec.outcome.source == 0
    ensures rec.outcome.written == Path(OutputDir, ImageName(rec.outcome.index, Extension(doc.rels[0].contentType)))
    ensures rec.outcome.onDisk == Some(Path(OutputDir, Sanitize(cc, Strip(cc, doc.paragraphs[1].text)) + ".png"))
  {
    SingleLinkWritten(fs, doc, rec);
    assert Placed(cc, fs, doc.paragraphs, rec.at, Extension(doc.rels[0].contentType), rec.outcome);
    SingleLinkCaptioned(cc, fs, doc.paragraphs, Extension(doc.rels[0].contentType), rec.outcome);
  }

  /** That record is a save, from the only relationship, under its
      sequential name in the output folder. */
  lemma SingleLinkWritten(fs: FileSystem, doc: Document, rec: Record)
    requires fs.writeFails == {} && rec.at == Pos(0, 0)
    requires |doc.paragraphs| > 0 && |doc.paragraphs[0].runs| > 0
    requires ImageRunAt(doc, rec.at)
    requires Resolved(doc.rels, doc.paragraphs[0].runs[0].markup, rec.outcome)
    requires rec.outcome.Attempted() ==> rec.outcome.source < |doc.rels| && Written(fs, rec.at, doc.rels[rec.outcome.source], rec.outcome)
    requires |doc.rels| == 1 && Links(doc.rels[0], doc.paragraphs[0].runs[0].markup)
    requires |doc.rels[0].blob| > 1024
    ensures rec.outcome.Saved? && rec.outcome.source == 0
    ensures rec.outcome.written == Path(OutputDir, ImageName(rec.outcome.index, Extension(doc.rels[0].contentType)))
  {
    SingleLinkResolved(doc.rels, doc.paragraphs[0].runs[0].markup, rec.outcome);
  }

  /** Saved into the output folder, with a caption after it and nothing
      failing, the first run's image ends up under the sanitised caption. */
  lemma SingleLinkCaptioned(cc: CharClass, fs: FileSystem, paragraphs: seq<Paragraph>, ext: string, o: Outcome)
    requires fs == FileSystem({}, {}, {})
    requires o.Saved? && o.written.folder == OutputDir
    requires Placed(cc, fs, paragraphs, Pos(0, 0), ext, o)
    requires |paragraphs| >= 2 && !Blank(cc, paragraphs[1].text)
    ensures o.onDisk == Some(Path(OutputDir, Sanitize(cc, Strip(cc, paragraphs[1].text)) + ".png"))
  {
    assert paragraphs[Pos(0, 0).paragraph + 1] == paragraphs[1];
    PlacedWithCaption(cc, fs, paragraphs, Pos(0, 0), ext, o);
  }

  /** With a one-relationship table whose relationship links to the run
      and has bytes, resolution picks that relationship. */
  lemma SingleLinkResolved(rels: seq<Relationship>, markup: string, o: Outcome)
    requires |rels| == 1 && Links(rels[0], markup) && |rels[0].blob| > 0
    requires Resolved(rels, markup, o)
    ensures o.Attempted() && o.source == 0
  {
    assert FirstLink(rels, markup, 0);
  }

  lemma SingleSaved(records: seq<Record>)
    requires |records| == 1 && records[0].outcome.Saved?
    ensures SavedCount(records) == 1
  {
    assert records[..0] == [];
  }

  /** When exactly one run carries an image, the walk makes exactly one
      record, about that run. */
  lemma OneRecord(cc: CharClass, fs: FileSystem, doc: Document, plan: Plan)
    requires Sound(cc, fs, doc, plan)
    requires forall at :: ImageRunAt(doc, at) <==> at == Pos(0, 0)
    ensures |plan.records| == 1 && plan.records[0].at == Pos(0, 0)
  {
    RecordsFollowImageRuns(cc, fs, doc, plan);
    assert ImageRunAt(doc, Pos(0, 0));
    var ps := Positions(plan.records);
    assert Pos(0, 0) in ps;
  }

  lemma PngName(contentType: string)
    requires contentType == "image/png"
    ensures ImageName(1, Extension(contentType)) == "image_1.png"
    ensures !IsLegacy(Extension(contentType))
  {
    assert AfterLast(contentType, '/') == "png";
    assert Decimal(1) == "1";
  }

  /** The file name the extractor gives an image captioned "Caption A":
      the space is kept. */
  lemma CaptionAFileName(caption: string)
    requires caption == "Caption A"
    ensures Sanitize(Ascii(), Strip(Ascii(), caption)) + ".png" == "Caption A.png"
  {
    StripCaptionA(caption);
    SanitizeCaptionA(caption);
  }

  /** The relationship `rId4` to `media/image1.png` links to a run whose
      markup embeds `rId4`. */
  lemma ImageLinksRun(rel: Relationship, markup: string)
    requires rel.id == "rId4" && rel.targetRef == "media/image1.png"
    requires markup == "<a:blip r:embed=\"rId4\"/>"
    ensures Links(rel, markup)
  {
    TargetMentionsImage(rel.targetRef);
    MarkupCitesId(markup, rel.id);
  }

  lemma TargetMentionsImage(target: string)
    requires target == "media/image1.png"
    ensures Contains(target, "image")
  {
    assert OccursAt(target, "image", 6) by {
      assert target[6..11] == "image";
    }
    ContainsIffOccurs(target, "image");
  }

  lemma MarkupCitesId(markup: string, id: string)
    requires id == "rId4" && markup == "<a:blip r:embed=\"rId4\"/>"
    ensures Contains(markup, id)
  {
    assert OccursAt(markup, id, 17) by {
      assert markup[17..21] == id;
    }
    ContainsIffOccurs(markup, id);
  }

  lemma StripCaptionA(text: string)
    requires text == "Caption A"
    ensures Strip(Ascii(), text) == text
  {
    assert text[0] == 'C' && text[|text| - 1] == 'A';
    StripUnpadded(Ascii(), text);
  }

  lemma SanitizeCaptionA(caption: string)
    requires caption == "Caption A"
    ensures Sanitize(Ascii(), caption) == "Caption A"
  {
    var r := Sanitize(Ascii(), caption);
    assert r[0] == 'C' && r[1] == 'a' && r[2] == 'p' && r[3] == 't' && r[4] == 'i';
    assert r[5] == 'o' && r[6] == 'n' && r[7] == ' ' && r[8] == 'A';
  }
}
