/**
 How the extractor names what it saves: the extension from the content
 type, the sequential name, the legacy-format rename, the caption taken
 from the next paragraph, and the caption's sanitised file name.
 */
module Naming {
  import opened Wrappers
  import opened Text
  import opened Docx

  /** The content type's subtype: its text after the last `/`. */
  function Subtype(contentType: string): string {
    AfterLast(contentType, '/')
  }

  /** A content type `<kind>/<sub>` whose subtype has no `/` has subtype
      `sub`, whatever slashes `kind` holds. */
  lemma SubtypeOf(kind: string, sub: string)
    requires '/' !in sub
    ensures Subtype(kind + "/" + sub) == sub
  {
    AfterLastOfJoin(kind, '/', sub);
    assert kind + "/" + sub == kind + ['/'] + sub;
  }

  /** The saved file's extension: the subtype, with `jpeg` shortened to
      `jpg`. */
  function Extension(contentType: string): (ext: string)
    ensures '/' !in ext
    ensures ext == "jpg" <==> Subtype(contentType) == "jpeg" || Subtype(contentType) == "jpg"
    ensures ext != "jpg" ==> |ext| <= |contentType| && ext == contentType[|contentType| - |ext|..]
    ensures ext != "jpg" && |ext| < |contentType| ==> contentType[|contentType| - |ext| - 1] == '/'
  {
    var sub := Subtype(contentType);
    if sub == "jpeg" then
      assert sub != "jpg";
      "jpg"
    else
      sub
  }

  /** The extension of `<kind>/<sub>`: `sub` itself, except that `jpeg`
      becomes `jpg`. */
  lemma ExtensionOf(kind: string, sub: string)
    requires '/' !in sub
    ensures Extension(kind + "/" + sub) == (if sub == "jpeg" then "jpg" else sub)
  {
    SubtypeOf(kind, sub);
  }

  /** The two metafile formats the extractor re-encodes as PNG. Neither
      extension holds a dot or a slash, and neither is `png`, so the
      conversion always changes the file's name. */
  predicate IsLegacy(ext: string): (b: bool)
    ensures b ==> '.' !in ext && '/' !in ext && ext != "png" && ext != "jpg"
  {
    ext == "x-emf" || ext == "x-wmf"
  }

  /** Exactly the content types `<kind>/x-emf` and `<kind>/x-wmf` give a
      metafile extension; `image/png`, `image/jpeg` and every other
      subtype do not. */
  lemma LegacyContentTypes(kind: string, sub: string)
    requires '/' !in sub
    ensures IsLegacy(Extension(kind + "/" + sub)) <==> sub == "x-emf" || sub == "x-wmf"
  {
    ExtensionOf(kind, sub);
  }

  /** The sequential file name `image_<index>.<ext>`. */
  function ImageName(index: nat, ext: string): string {
    "image_" + Decimal(index) + "." + ext
  }

  /** A sequential name starts with `image_` and ends with a dot and the
      extension, and the index can be read back from the digits between
      them. */
  lemma ImageNameReadsBack(index: nat, ext: string)
    ensures var name := ImageName(index, ext);
      && |name| == 7 + |Decimal(index)| + |ext|
      && name[..6] == "image_"
      && name[|name| - |ext|..] == ext && name[|name| - |ext| - 1] == '.'
      && IsDecimal(name[6..|name| - |ext| - 1])
      && ParseDecimal(name[6..|name| - |ext| - 1]) == index
  {
    var name := ImageName(index, ext);
    assert name[6..|name| - |ext| - 1] == Decimal(index);
    ParseDecimalInverts(index);
  }

  /** In a sequential name the first dot follows the index's digits. */
  lemma ImageNameFirstDot(n: nat, ext: string)
    ensures ImageName(n, ext)[6 + |Decimal(n)|] == '.'
    ensures forall k :: 0 <= k < 6 + |Decimal(n)| ==> ImageName(n, ext)[k] != '.'
    ensures ImageName(n, ext)[6..6 + |Decimal(n)|] == Decimal(n)
  {
    var d := Decimal(n);
    var s := ImageName(n, ext);
    forall k | 6 <= k < 6 + |d|
      ensures s[k] != '.'
    {
      assert s[k] == d[k - 6];
    }
  }

  /** Two sequential names with different indices differ, whatever their
      extensions. */
  lemma ImageNameInjective(m: nat, n: nat, e: string, f: string)
    ensures ImageName(m, e) == ImageName(n, f) ==> m == n
  {
    if ImageName(m, e) == ImageName(n, f) {
      ImageNameFirstDot(m, e);
      ImageNameFirstDot(n, f);
      assert |Decimal(m)| == |Decimal(n)|;
      DecimalInjective(m, n);
    }
  }

  /** `os.path.splitext` on a sequential name whose extension has no dot
      keeps `image_<index>`, so the converted file is `image_<index>.png`. */
  lemma ConvertedName(index: nat, ext: string)
    requires '.' !in ext
    ensures SplitExtRoot(ImageName(index, ext)) + ".png" == ImageName(index, "png")
  {
    var d := Decimal(index);
    var s := ImageName(index, ext);
    var dot := 6 + |d|;
    assert s[dot] == '.';
    forall k | dot < k < |s|
      ensures s[k] != '.'
    {
      assert s[k] == ext[k - dot - 1];
    }
    assert s[0] != '.';
    assert SplitsAt(s, dot);
    SplitExtRootAt(s, dot);
    assert s[..dot] == "image_" + d;
  }

  /** The characters a sanitised caption keeps: alphanumerics, space,
      underscore and hyphen. */
  predicate Safe(cc: CharClass, c: char) {
    cc.alnum(c) || c == ' ' || c == '_' || c == '-'
  }

  /** The caption with every unsafe character replaced by `_`. */
  function Sanitize(cc: CharClass, s: string): (r: string)
    ensures |r| == |s|
    ensures forall i :: 0 <= i < |s| && Safe(cc, s[i]) ==> r[i] == s[i]
    ensures forall i :: 0 <= i < |s| && !Safe(cc, s[i]) ==> r[i] == '_'
    ensures forall i :: 0 <= i < |r| ==> Safe(cc, r[i])
    decreases |s|
  {
    if |s| == 0 then []
    else [if Safe(cc, s[0]) then s[0] else '_'] + Sanitize(cc, s[1..])
  }

  lemma SanitizeIdempotent(cc: CharClass, s: string)
    ensures Sanitize(cc, Sanitize(cc, s)) == Sanitize(cc, s)
  {
    var r := Sanitize(cc, s);
    assert forall i :: 0 <= i < |r| ==> Sanitize(cc, r)[i] == r[i];
  }

  /** The next paragraph has a character that is not whitespace. */
  predicate HasCaptionText(cc: CharClass, paragraphs: seq<Paragraph>, p: nat) {
    p + 1 < |paragraphs| && !Blank(cc, paragraphs[p + 1].text)
  }

  /** The caption of an image in paragraph `p`: the stripped text of
      paragraph `p + 1` alone, when that is not empty. */
  function Caption(cc: CharClass, paragraphs: seq<Paragraph>, p: nat): (c: Option<string>)
    ensures c.Some? <==> HasCaptionText(cc, paragraphs, p)
    ensures c.Some? ==> c.value == Strip(cc, paragraphs[p + 1].text) && c.value != []
  {
    if p + 1 < |paragraphs| then
      var t := Strip(cc, paragraphs[p + 1].text);
      if t != [] then Some(t) else None
    else None
  }
}
