# DOCX image extractor — a Dafny model

`main.py` walks the paragraphs of a Word document and, for every run that
holds an image, does the following:

- It finds the image's bytes through the document's relationship table.
- It writes them as `image_<n>.<ext>`. Payloads of at most 1024 bytes go to
  `output_dir/formula`; larger ones go to `output_dir`.
- It re-encodes EMF/WMF metafiles as PNG.
- It renames the file after the caption in the next paragraph.

This project models that decision logic as pure functions. The walk is
`Extractor.Extract`. It takes the document and an abstract filesystem, and
returns one record per image-bearing run, in document order. Each record
says what happened to that run's image:

- it was skipped;
- its write failed; or
- it was saved. A saved record gives the sequential path written, the path
  after conversion, the caption-derived rename target, and where the file
  is right after this image has been handled.

The walk also returns the image index it leaves behind.

Modules:

- `Text` (text.dfy) models Python's string behaviour: `in` on strings,
  `split("/")[-1]`, `strip()`, decimal formatting and `os.path.splitext`.
- `Docx` (docx.dfy) holds the document, its runs, paragraphs and
  relationships. It has the image-marker test (`a:blip` or `w:object`) and
  relationship resolution.
- `Naming` (naming.dfy) covers the extension, the sequential name, the
  metafile rename, the caption lookup and caption sanitising.
- `Extractor` (extractor.dfy) is the walk. It threads the index through the
  paragraph and run loops. `Faithful` is the per-record specification, built
  from `Resolved`, `Written` and `Placed`.
- `Properties` (properties.dfy) proves document-level consequences: coverage
  and order, the index counter, distinct names, size routing, metafile
  removal and final paths. Each lemma is stated for any plan that meets
  `Extractor.Sound`, the walk's contract. `Extract` ensures `Sound`, so each
  lemma holds of `Extract(cc, fs, doc)`.
- `Examples` (examples.dfy) gives concrete instances under `isalnum` and
  `isspace` restricted to ASCII (for `isspace`: space, `\t` to `\r`, and
  U+001C to U+001F).

Two behaviours of `main.py` that are easy to misread:

- A failed write does not use up the index. The `continue` at main.py:86
  skips the increment at main.py:114, so the next image reuses the index.
- The sanitiser keeps spaces. "Figure 1: Test" becomes `Figure 1_ Test`,
  and "Caption A" becomes `Caption A.png`.

## Model

| member | source | states |
|---|---|---|
| Text.ContainsIffOccurs | main.py:57-60 | Python's `needle in hay` holds exactly when `needle` occurs in `hay` at some offset; the empty id occurs everywhere |
| Docx.ImageMarkers | main.py:8-28 | a run holds an image exactly when an element in it is `blip` in the DrawingML namespace or `object` in the WordprocessingML namespace; the same local name in another namespace does not count, and a run whose elements all lie in other namespaces holds no image |
| Docx.Resolve | main.py:55-62 | the resolved relationship is the first in table order whose target contains "image" and whose id occurs in the run's markup; there is none exactly when no relationship links to the run |
| Text.AfterLastOfJoin | main.py:75 | whatever precedes the last separator, `split(sep)[-1]` returns exactly the text after it |
| Text.AfterLast | main.py:75 | `split("/")[-1]` is the longest suffix without `/`; it is preceded by `/` unless it is the whole string |
| Naming.Extension | main.py:75-76 | the extension has no `/`; it is `jpg` exactly when the subtype is `jpeg` or `jpg`; otherwise it is the content type's text after its last `/` |
| Naming.ExtensionOf | main.py:75-76 | for a content type `<kind>/<sub>` whose `sub` has no `/`, the extension is `sub`, except that `jpeg` becomes `jpg`; so `image/png` gives `png` and `image/x-emf` gives `x-emf` |
| Naming.SubtypeOf | main.py:75 | the text after the last `/` of `<kind>/<sub>` is `sub` whenever `sub` has no `/`, whatever slashes `kind` holds |
| Text.Decimal | main.py:79 | the formatted index is a non-empty string of decimal digits with no leading zero; it is `0` exactly for the index 0 |
| Text.ParseDecimalInverts | main.py:79 | parsing the formatted index gives the index back, so formatting loses nothing |
| Naming.ImageNameReadsBack | main.py:79 | the sequential name starts with `image_` and ends with a dot and the extension, and parsing the digits between them gives the index back |
| Naming.ImageNameInjective | main.py:79 | `image_<m>.<e>` and `image_<n>.<f>` are equal only when `m == n`, whatever the extensions |
| Text.SplitExtRoot | main.py:90 | the root of `os.path.splitext` is a prefix of the name; when it is shorter, the name is split at its last dot and something other than a dot precedes that dot; when it is the whole name, no dot of the name qualifies as such a split point |
| Text.SplitExtRootAt | main.py:90 | wherever the name has a last dot preceded by a non-dot character, the root is exactly the name up to that dot |
| Naming.IsLegacy | main.py:89 | a metafile extension has no dot or slash and is neither `png` nor `jpg`, so converting the file always changes its name |
| Naming.LegacyContentTypes | main.py:75-89 | among content types `<kind>/<sub>`, exactly `x-emf` and `x-wmf` subtypes are converted; `image/png`, `image/jpeg` and every other subtype are not |
| Naming.ConvertedName | main.py:89-90 | for an extension without a dot, the converted path of `image_<n>.<ext>` is `image_<n>.png` |
| Text.Strip | main.py:99-100 | `strip()` is empty exactly when the text is all whitespace; otherwise it starts and ends with non-whitespace; it is a slice of the text with only whitespace cut on either side |
| Text.StripUnpadded | main.py:99-100 | text that neither starts nor ends with whitespace comes back from `strip()` unchanged |
| Naming.Caption | main.py:96-100 | an image in paragraph `p` has a caption exactly when paragraph `p + 1` exists and holds a non-whitespace character; the caption is that paragraph's stripped text and is never empty |
| Naming.Sanitize | main.py:105 | the sanitised caption has the caption's length; safe characters (alphanumeric, space, `_`, `-`) stay at their position; every other character becomes `_`; every output character is safe |
| Naming.SanitizeIdempotent | main.py:105 | sanitising a sanitised caption changes nothing |
| Examples.SanitizeFigureCaption | main.py:105 | "Figure 1: Test" is sanitised to "Figure 1_ Test" |
| Examples.ImageLinksRun | main.py:56-60 | a relationship `rId4` whose target is `media/image1.png` links to a run whose markup is `<a:blip r:embed="rId4"/>` |
| Examples.CaptionAFileName | main.py:99-106 | the caption "Caption A" gives the file name `Caption A.png` |
| Properties.ResolutionFacts | main.py:53-66 | every record of the walk is about an image-bearing run; it is skipped exactly when no relationship links to the run or the first that does has no bytes, and otherwise its source is that first linking relationship |
| Extractor.HandleImage | main.py:53-66 | an image-bearing run is skipped exactly when nothing links to it or the first linking relationship has no bytes; otherwise that relationship is the source and the current index is used |
| Extractor.WriteImage | main.py:68-86 | a payload of at most 1024 bytes is written to the formula folder and a larger one to the output folder, as `image_<index>.<extension>`; the write fails exactly where the filesystem makes it fail |
| Extractor.AfterWrite | main.py:88-111 | after a write, a metafile moves to `image_<index>.png`; a caption gives the target `<sanitised caption>.png` in the same folder; once this image is handled its file is at the target if the rename works, at its current path otherwise, and nowhere if the metafile conversion failed |
| Extractor.ProcessRun | main.py:51-114 | a run gets one record if it carries an image and none otherwise; the index moves on by one exactly when the image was saved |
| Extractor.ProcessRuns | main.py:51-114 | the runs of a paragraph give one faithful record per image-bearing run, in order; each write uses the starting index plus the number of images saved before it |
| Extractor.ProcessParagraphs | main.py:50-114 | the same holds for the paragraphs from a given one on, in document order |
| Extractor.Extract | main.py:47-114 | over the document the records follow the image-bearing runs in document order; each record is faithful; the index starts at 1; every write uses 1 plus the number of earlier saved images; the final index is 1 plus the number saved |
| Properties.RecordsFollowImageRuns | main.py:8-28 | every record is about a run holding `a:blip` or `w:object`; every such run has a record; the records are in strictly increasing document order, so a run without image markup gets none |
| Properties.SavedIndicesIncrease | main.py:79-114 | any write after a saved image uses a strictly larger index |
| Properties.FailedWriteKeepsIndex | main.py:81-86 | a failed write leaves its index to the next write, so skipped images and failed writes do not use up the index |
| Properties.SavedNamesDistinct | main.py:79-93 | two saved images never share a sequential path, either as written or after conversion |
| Properties.SizeRouting | main.py:69-72 | a payload goes to the formula folder exactly when it has at most 1024 bytes; the boundary 1024 goes to formula |
| Properties.MetafileOriginalRemoved | main.py:88-93 | after an EMF/WMF image is handled, its originally written file is gone; what is left is a `.png` file, or nothing when the conversion failed |
| Properties.CaptionedPath | main.py:103-108 | with a caption and a file to rename, once the image has been handled its file is `<sanitised caption>.png` in its folder, whatever its format |
| Properties.UncaptionedKeepsSequentialName | main.py:89-111 | without a caption the image stays at `image_<n>.<ext>`; a metafile stays at `image_<n>.png`, or is gone if its conversion failed |
| Examples.CaptionedPngIsRenamed | main.py:50-114 | one linked PNG of more than 1024 bytes followed by caption text gives exactly one record: saved as `image_1.png` in the output folder and renamed to the sanitised caption there; the index ends at 2 |

## Left out

- XML parsing (main.py:11-25). A run is given as its serialised markup plus the set of qualified names of the elements nested in it. lxml's parsing and XPath are not modelled.
- Document loading. The paragraphs and the relationship table are inputs. A paragraph's `text` is an input field, because python-docx computes it. A document that fails to open is outside the model.
- Relationship lookup. The table is a sequence in the dictionary's iteration order. Unique ids are not required. External relationships, whose `target_part` raises, are not modelled.
- PIL's EMF/WMF decoding (main.py:31-38). This is foreign code. Whether conversion succeeds is an input (`FileSystem.convertFails`). Only its effect on paths is modelled.
- Filesystem calls. Directory creation (main.py:42-44) is left out. Write and rename failures are inputs. A rename of a file that does not exist (after a failed conversion) always fails. `os.remove` is assumed to succeed; if it raised, the script would stop.
- Rename collisions. Two images with the same caption rename to the same target; what the second rename does to the first file depends on the OS. The model records each image's target on its own.
- Extractor.Outcome: `onDisk` is where the image's file is right after that image is handled, not where it is when the walk ends. A later image can replace the file. For example, an image renamed to `image_2.png` because its caption reads `image_2` is overwritten when the next image is written as `image_2.png`. The model does not track the directory across images.
- Paths are a folder (`output_dir` or `output_dir/formula`) plus a file name. `os.path.join` is not modelled on strings.
- Unicode character classes. `str.isalnum` and `str.isspace` are parameters (`Text.CharClass`), and every property holds for any choice of them. The examples use both restricted to ASCII (`Examples.Ascii`).
- Console logging and the script's entry point (main.py:116-119).
