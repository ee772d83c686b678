# PPT/PPTX to PDF batch converter: a Dafny model

The service is a single Flask application. A page lets the user pick or drop
PowerPoint files. The `/upload` handler saves each `.ppt`/`.pptx` file into a fresh
temporary workspace and has PowerPoint (through COM) export it to PDF; files with
any other extension are skipped without being saved. It returns the PDFs
as one zip archive, `converted_pdfs.zip`.

This project models the handler's decision logic as pure functions over immutable
data. It also models the page script's `escapeHtml` helper and its drop filter.

- `Text` (`text.dfy`) holds ASCII lower-casing, suffix tests and `str.rfind`.
- `Paths` (`paths.dfy`) holds the Windows path operations the handler uses.
  These are `splitext`, `join` and `basename`, with both `\` and `/` as
  separators, since the handler only proceeds on Windows.
- `Items` (`items.dfy`) holds the per-item rules:
  - the sanitized name, or `upload.pptx` when sanitizing leaves nothing;
  - the case-insensitive `.ppt`/`.pptx` filter;
  - the output path `out\<stem>.pdf`;
  - the success test "engine says ok AND the PDF exists";
  - the four outcomes of one item.
- `Batch` (`batch.dfy`) holds the conversion loop. It is one function (`RunLoop`)
  over the items' outcomes, with independent reference definitions:
  - `Kept` gives the indices that pass the filter;
  - `ConvertedPaths` gives the produced paths;
  - `IsFirstStop` gives the first failing item.
  Lemmas connect the loop to these definitions.
- `Upload` (`upload.dfy`) holds the handler: the platform and empty-upload 400s,
  the loop, the "nothing converted" 400, the archive, and the exception path.
  It records what becomes of the workspace on each way out: never created, left
  in place, removed at once, or removal scheduled after 5 seconds.
- `Page` (`page.dfy`) holds the page script's `escapeHtml`, a per-character
  reference definition, an entity decoder, and the drop filter.

What the outside world decides is given as data:
- Each `UploadItem` carries its declared name.
- It also carries the exception saving it raises, if any.
- It also carries the engine's verdict `(ok, err, artifactExists)`.
- A `Request` says whether the host is Windows and carries the `files` field,
  which may be absent.
- It also carries the exception writing the archive raises, if any.
- `secure_filename` is an uninterpreted `string -> string` in `Setting`,
  together with the workspace directory.

The uploaded names do not have to be unique. `a.ppt` and `a.pptx` are both
written to `out\a.pdf`, and the archive then lists `a.pdf` twice. The model
states this behaviour (`Upload.SameStemSameEntry`) and assumes no uniqueness.

## Model

| member | source | states |
|---|---|---|
| Paths.SplitExt | ppt_to_pdf.py:179 | `os.path.splitext`: root plus extension is the whole name, and a non-empty extension is a dot followed by non-dot, non-separator text, preceded in the last component by a stem that is not only dots |
| Paths.SplitExtOfExtension | ppt_to_pdf.py:179 | conversely, a stem followed by an extension is split exactly between them |
| Paths.SplitExtWithoutExtension | ppt_to_pdf.py:179 | a name with no stem/extension decomposition keeps its whole text as root and an empty extension |
| Paths.Basename | ppt_to_pdf.py:194 | `os.path.basename` returns the longest separator-free suffix of the path: everything after the last `\` or `/` |
| Paths.BasenameJoin | ppt_to_pdf.py:194 | the basename of `join(dir, name)` is the basename of `name`, whatever the directory |
| Items.FileNameDefault | ppt_to_pdf.py:174-175 | the name used is never empty; a non-empty sanitized name is used unchanged; when sanitizing yields nothing it is `upload.pptx`, which always passes the extension filter |
| Items.AcceptedIffPptSuffix | ppt_to_pdf.py:175-176 | an item is kept exactly when some suffix of its name is `.ppt` or `.pptx` in some letter case |
| Items.PdfNameReplacesExtension | ppt_to_pdf.py:179-180 | a kept name `stem + ext` produces the PDF name `stem + ".pdf"`, whatever the case of `ext` |
| Items.DeckExample | ppt_to_pdf.py:179-180 | `Deck.PPTX` is kept and becomes `Deck.pdf` |
| Items.DotOnlyNameExample | ppt_to_pdf.py:174-180 | `.pptx` is kept, but since it has no stem its PDF name is `.pptx.pdf` |
| Items.Outcome | ppt_to_pdf.py:174-186 | an item is skipped exactly when its name fails the filter; it stops the loop exactly when it is kept and saving raises or the engine does not report ok with an existing PDF; a converted item's path is `out\` plus its PDF name; a kept item whose save raises is a save exception carrying its text whatever the engine verdict; a failed conversion carries the item's name and the engine's error |
| Batch.KeptSpec | ppt_to_pdf.py:173-176 | the reference list of kept indices holds exactly the non-skipped indices of the range, in increasing order |
| Batch.ConvertedPathsAlign | ppt_to_pdf.py:183-184 | with no failing item, the t-th created path belongs to the t-th kept item |
| Batch.LoopSpec | ppt_to_pdf.py:173-186 | the loop completes exactly when no item stops it, and otherwise ends at the first stopping item |
| Batch.KeptAreAccepted | ppt_to_pdf.py:173-178 | the kept indices are exactly those whose names pass the filter, in input order |
| Batch.ConvertAllCompletes | ppt_to_pdf.py:173-184 | with no failing item, every kept item is saved and submitted in input order, `created` is empty exactly when nothing passed the filter, and `created[t]` is the output path of the t-th kept item |
| Batch.ConvertAllStops | ppt_to_pdf.py:177-186 | at the first stopping item the loop ends: a failed conversion names that item and its error, with the item itself submitted; a raising save carries the exception text, with the item not submitted |
| Batch.ConvertAllStopsSubmitted | ppt_to_pdf.py:173-186 | when the loop stops at item k, the submitted items are exactly the kept items before k, plus k if its conversion failed; nothing after k is saved or converted |
| Batch.ConvertAllCompletesIff | ppt_to_pdf.py:173-186 | the loop completes if and only if no item stops it |
| Upload.Handle | ppt_to_pdf.py:156-211 | the platform check alone gives the first 400; an absent or empty `files` gives the second; neither creates a workspace or submits anything; the 500 for a failed conversion and the "no valid files" 400 leave the workspace; a server error removes it at once; a download schedules its removal after 5 seconds and carries `converted_pdfs.zip` with at least one entry |
| Upload.FailFast | ppt_to_pdf.py:173-211 | the first stopping item decides a 500: a failed conversion gives `Conversion failed for {name}: {err}`, with a missing error printed as `None`, and leaves the workspace; a raising save gives `Server error` and removes it; only earlier kept items (and the failed one) were submitted |
| Upload.NoValidFilesIffAllSkipped | ppt_to_pdf.py:188-189 | the "No valid PPT/PPTX files converted." 400 is returned exactly when the request was admitted and every item was skipped; then nothing was submitted and the workspace stays |
| Upload.DownloadIff | ppt_to_pdf.py:183-204 | an archive is returned exactly when the request was admitted, no item stopped the loop, some item passed the filter and writing the archive did not raise; its removal is then scheduled after 5 seconds |
| Upload.DownloadEntries | ppt_to_pdf.py:191-194 | the archive holds one entry per kept item, in input order, each the basename of that item's PDF name |
| Upload.ArchiveFaultRemovesWorkspace | ppt_to_pdf.py:191-211 | an exception while writing the archive gives `Server error: {e}` and removes the workspace at once |
| Upload.ServerErrorCause | ppt_to_pdf.py:178-211 | a server error comes only from the raising save of the first stopping item or from writing the archive |
| Upload.SaveFaultIsServerError | ppt_to_pdf.py:173-211 | a kept item whose save raises, before any other stop, gives `Server error: {e}` with that exception and removes the workspace at once, whatever the engine verdict |
| Upload.PlainNameEntry | ppt_to_pdf.py:175-194 | a plain stem plus a presentation extension is kept, and its archive entry is the stem plus `.pdf` |
| Upload.TwoCleanConversions | ppt_to_pdf.py:173-184 | two kept items that convert cleanly are both submitted and both created, in order |
| Upload.SameStemSameEntry | ppt_to_pdf.py:179-194 | `stem.ppt` and `stem.pptx` in one request are both converted, and the archive lists `stem.pdf` twice |
| Page.ReplaceAll | ppt_to_pdf.py:67 | a global one-character `replace` leaves text without that character unchanged, removes the character when the replacement lacks it, and introduces only characters of the input or the replacement |
| Page.ReplaceAllAppend | ppt_to_pdf.py:67 | a global one-character `replace` distributes over concatenation |
| Page.EscapeHtmlOfChar | ppt_to_pdf.py:66-67 | the five ordered replacements turn each single character into its own escape |
| Page.EscapeHtmlIsPerChar | ppt_to_pdf.py:66-67 | because `&` is replaced first, `escapeHtml` equals escaping each character independently |
| Page.EscapeHtmlNoMarkup | ppt_to_pdf.py:66-67 | the output of `escapeHtml` contains none of `<`, `>`, `"`, `'` |
| Page.EscapeHtmlAmpersands | ppt_to_pdf.py:66-67 | every `&` in the output of `escapeHtml` begins one of `&amp;`, `&lt;`, `&gt;`, `&quot;`, `&#039;` |
| Page.EscapeHtmlRoundTrip | ppt_to_pdf.py:66-67 | decoding the five entities in the output of `escapeHtml` gives back the original name |
| Page.EscapeHtmlInjective | ppt_to_pdf.py:61-67 | distinct file names are rendered as distinct text in the file list |
| Page.AmpersandLastDoubleEscapes | ppt_to_pdf.py:67 | with `&` replaced last instead, `<` would come out as `&amp;lt;`, which decodes to something other than `<`; the actual order gives `&lt;` |
| Page.DropFilterAgrees | ppt_to_pdf.py:91 | on the same string, the page's drop test and the server's extension test (line 175) agree; the page tests the raw file name, the server the sanitized one |
| Page.DroppedNames | ppt_to_pdf.py:91-92 | the dropped names the page keeps are exactly the dropped names that pass the filter, and no more than were dropped |
| Page.DroppedNamesOne | ppt_to_pdf.py:91 | a single dropped file is kept exactly when it passes the test |
| Page.DroppedNamesAppend | ppt_to_pdf.py:91-92 | filtering a concatenation is concatenating the filtered parts, so drop order and repeated names are kept |
| Page.DroppedNamesKeepsAll | ppt_to_pdf.py:91-92 | when every dropped name passes, the kept list is the dropped list itself, duplicates included |

## Left out

- The PowerPoint COM export (`convert_with_com_windows`, ppt_to_pdf.py:118-148)
  is a foreign call. Each item carries its verdict `(ok, err, artifactExists)`
  instead. The function catches its own exceptions, so it never raises into the
  loop.
- `artifactExists` is taken as given for each item, not derived from earlier items.
  In the source, `os.path.exists(pdfpath)` (ppt_to_pdf.py:183) checks a path that
  every item with the same stem shares, so after `a.ppt` converts, a later `a.pptx`
  whose export wrote nothing still passes the check on the earlier file. The model
  admits every flag value, so its lemmas cover that case, but it does not tie the
  flag to what earlier items wrote.
- `secure_filename` is library code. It is an uninterpreted function, and nothing
  is claimed about the names it produces.
- Flask routing, `send_file` and `MAX_CONTENT_LENGTH` are framework plumbing. The
  reply records the download name and the entry names, not the bytes sent.
- Filesystem, zip and tempfile I/O are abstract:
  - `mkdtemp`, `makedirs`, `f.save`, `ZipFile` and `rmtree`;
  - a raising `f.save` is the item's `saveFault`;
  - a raising archive write is the request's `archiveFault`.
  - The saved input path (`join(tmpdir, filename)`) is not modelled.
- Exceptions from `mkdtemp` or `makedirs` (outside the `try`) are left out. So are
  exceptions from starting the cleanup thread or from `send_file`.
- The deferred cleanup thread and its `sleep` are concurrency and timing. Only the
  scheduled removal and its 5-second delay are recorded. A failing `rmtree` is
  swallowed in the source, so it has no visible effect.
- `Paths.Join`: does not model joining with a rooted or drive-qualified second
  component, since the handler only joins the workspace with fixed or sanitized
  relative names.
- `Paths.Basename`: does not model drive (`C:`) or UNC prefixes, because the paths
  it is applied to are joins of a directory and a relative name.
- `Text.Lower`: lower-cases ASCII letters only, where Python's `str.lower` and
  JavaScript's `toLowerCase` also fold other letters. No non-ASCII character
  lower-cases to `.`, `p`, `t` or `x` (the one multi-character mapping, `İ`,
  ends in a combining dot), so the `.ppt`/`.pptx` test decides exactly as in the
  source.
- `Page.DropFilterAgrees`: relates the two tests on the same string only. The
  server tests the name after `secure_filename`, which is not modelled, so a file
  the page keeps can still be skipped by the server.
- `formatBytes` (ppt_to_pdf.py:69-76) formats floating point with `toFixed`.
- The page's DOM and event handling are left out, apart from `escapeHtml` and the
  drop filter. The file picker's `accept` hint (ppt_to_pdf.py:82) is advice to
  the browser, not a filter.
