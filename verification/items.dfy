/**
 The per-item rules of the upload handler's conversion loop: naming, filtering,
 output naming and the success check.

 Each uploaded item carries what the outside world will answer for it: whether
 saving it raises, and the conversion engine's verdict (its `ok` flag, its error
 text, and whether the PDF is on disk afterwards). The filename sanitizer is an
 uninterpreted function supplied with the workspace directory in a `Setting`.
 */
module Items {
  import opened Text
  import opened Paths

  datatype Option<T> = None | Some(value: T)

  /**
   The engine's `(ok, err)` pair together with the outcome of the existence check on
   the PDF path. That path is shared by every item with the same stem, so the check
   can see a file an earlier item wrote; the flag is taken as given, not derived.
   */
  datatype EngineVerdict = EngineVerdict(ok: bool, err: Option<string>, artifactExists: bool)

  /** One uploaded file: its declared name, the exception saving it raises (if any), and the engine's verdict. */
  datatype UploadItem = UploadItem(declaredName: string, saveFault: Option<string>, verdict: EngineVerdict)

  /** The filename sanitizer and the freshly created workspace directory of one request. */
  datatype Setting = Setting(sanitize: string -> string, root: string)

  const DefaultName: string := "upload.pptx"
  const Extensions: seq<string> := [".ppt", ".pptx"]
  const OutDirName: string := "out"
  const PdfSuffix: string := ".pdf"

  /** The sanitized name, or the default name when sanitizing leaves nothing. */
  function FileName(sanitize: string -> string, declared: string): string {
    var s := sanitize(declared);
    if s == "" then DefaultName else s
  }

  function ItemName(env: Setting, item: UploadItem): string {
    FileName(env.sanitize, item.declaredName)
  }

  /** True when `s` ends with one of `suffixes`, tried in order (a suffix tuple passed to `endswith`). */
  predicate EndsWithAny(s: string, suffixes: seq<string>)
    decreases |suffixes|
  {
    |suffixes| > 0 && (EndsWith(s, suffixes[0]) || EndsWithAny(s, suffixes[1..]))
  }

  /** The server's extension filter, applied to the lower-cased name. */
  predicate Accepted(name: string) {
    EndsWithAny(Lower(name), Extensions)
  }

  /** A presentation extension in any letter case. */
  predicate IsPptExtension(e: string) {
    Lower(e) == ".ppt" || Lower(e) == ".pptx"
  }

  function PdfName(name: string): string {
    SplitExt(name).0 + PdfSuffix
  }

  function OutDir(root: string): string {
    Join(root, OutDirName)
  }

  function PdfPath(root: string, name: string): string {
    Join(OutDir(root), PdfName(name))
  }

  /** What happens to one item inside the loop. */
  datatype ItemOutcome =
    | Skipped
    | Converted(pdfPath: string)
    | ConversionFailed(fileName: string, err: Option<string>)
    | SaveRaised(message: string)

  /** Outcomes that end the loop early. */
  predicate Stops(o: ItemOutcome) {
    o.ConversionFailed? || o.SaveRaised?
  }

  function Outcome(env: Setting, item: UploadItem): (o: ItemOutcome)
    ensures o.Skipped? <==> !Accepted(ItemName(env, item))
    ensures Stops(o) <==>
      Accepted(ItemName(env, item)) && (item.saveFault.Some? || !(item.verdict.ok && item.verdict.artifactExists))
    ensures o.Converted? ==> o.pdfPath == PdfPath(env.root, ItemName(env, item))
    ensures o.SaveRaised? <==> Accepted(ItemName(env, item)) && item.saveFault.Some?
    ensures o.SaveRaised? ==> o.message == item.saveFault.value
    ensures o.ConversionFailed? ==> o.fileName == ItemName(env, item) && o.err == item.verdict.err
  {
    var name := ItemName(env, item);
    if !Accepted(name) then Skipped
    else if item.saveFault.Some? then SaveRaised(item.saveFault.value)
    else if item.verdict.ok && item.verdict.artifactExists then Converted(PdfPath(env.root, name))
    else ConversionFailed(name, item.verdict.err)
  }

  /*** Properties of the item rules ***/

  /** A non-empty sanitized name is used unchanged; otherwise the default name, which passes the extension filter, is used. */
  lemma FileNameDefault(sanitize: string -> string, declared: string)
    ensures FileName(sanitize, declared) != ""
    ensures sanitize(declared) != "" ==> FileName(sanitize, declared) == sanitize(declared)
    ensures sanitize(declared) == "" ==> FileName(sanitize, declared) == DefaultName
    ensures sanitize(declared) == "" ==> Accepted(FileName(sanitize, declared))
  {
    var l := Lower(DefaultName);
    assert l[|l| - 5..] == ".pptx";
    assert EndsWith(l, Extensions[1]);
  }

  /** A suffix test on the lower-cased name is a test on the lower-cased tail of the name. */
  lemma EndsWithLower(name: string, suffix: string)
    ensures EndsWith(Lower(name), suffix) <==> |suffix| <= |name| && Lower(name[|name| - |suffix|..]) == suffix
  {
    if |suffix| <= |name| {
      LowerSuffix(name, |name| - |suffix|);
    }
  }

  /** The filter accepts exactly the names that end in `.ppt` or `.pptx` in some letter case. */
  lemma AcceptedIffPptSuffix(name: string)
    ensures Accepted(name) <==> exists k :: 0 <= k <= |name| && IsPptExtension(name[k..])
  {
    var l := Lower(name);
    assert Accepted(name) <==> EndsWith(l, ".ppt") || EndsWith(l, ".pptx") by {
      assert Extensions[1..] == [".pptx"];
      assert Extensions[1..][1..] == [];
    }
    EndsWithLower(name, ".ppt");
    EndsWithLower(name, ".pptx");
    if exists k :: 0 <= k <= |name| && IsPptExtension(name[k..]) {
      var k :| 0 <= k <= |name| && IsPptExtension(name[k..]);
      assert |Lower(name[k..])| == |name| - k;
    }
    if EndsWith(l, ".ppt") {
      assert IsPptExtension(name[|name| - 4..]);
    } else if EndsWith(l, ".pptx") {
      assert IsPptExtension(name[|name| - 5..]);
    }
  }

  /** Letter case does not matter to the filter. */
  lemma AcceptedIgnoresCase(a: string, b: string)
    requires Lower(a) == Lower(b)
    ensures Accepted(a) <==> Accepted(b)
  {
  }

  /** A presentation extension is an extension in the sense of `SplitExt`. */
  lemma PptExtensionIsExtension(e: string)
    requires IsPptExtension(e)
    ensures IsExtension(e)
  {
    forall j | 0 <= j < |e|
      ensures LowerChar(e[j]) == Lower(e)[j]
    {
    }
    assert e[0] == ExtSep by {
      LowerCharKeepsNonLetters(e[0]);
    }
    forall j | 0 < j < |e|
      ensures e[j] != ExtSep && !IsSep(e[j])
    {
      LowerCharKeepsNonLetters(e[j]);
    }
  }

  /** The output name drops the final extension, whatever its case, and appends `.pdf`. */
  lemma PdfNameReplacesExtension(s: string, e: string)
    requires HasStem(s)
    requires IsPptExtension(e)
    ensures Accepted(s + e)
    ensures PdfName(s + e) == s + PdfSuffix
  {
    PptExtensionIsExtension(e);
    SplitExtOfExtension(s, e);
    AcceptedIffPptSuffix(s + e);
    assert (s + e)[|s|..] == e;
  }

  /** `Deck.PPTX` is converted to `Deck.pdf`. */
  lemma DeckExample()
    ensures Accepted("Deck.PPTX")
    ensures PdfName("Deck.PPTX") == "Deck.pdf"
  {
    var s, e := "Deck", ".PPTX";
    assert s + e == "Deck.PPTX";
    SepIndexUnique(s, -1);
    assert s[0] != ExtSep;
    assert Lower(e) == ".pptx";
    PdfNameReplacesExtension(s, e);
  }

  /** A name made only of a dot and the extension has no stem, so its whole text is kept before `.pdf`. */
  lemma DotOnlyNameExample()
    ensures Accepted(".pptx")
    ensures PdfName(".pptx") == ".pptx.pdf"
  {
    var p := ".pptx";
    SepIndexUnique(p, -1);
    RFindUnique(p, ExtSep, 0);
    assert Lower(p) == ".pptx";
    assert EndsWith(Lower(p), Extensions[1]);
  }

}
