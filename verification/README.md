# Origami `ResizePDF` in Dafny

This project models the `ResizePDF` class of Origami's `src/pdf.py`. The class is a one-file PDF resizer:

- The constructor takes an input path, an output directory and a paper format; a falsy format (None or "") means "A4".
- It keeps the input's basename. The output file is `<output directory>/<basename>`.
- `is_pdf` accepts the file when the last dot-separated piece of its name, lowered, is `pdf`.
- `resize_pdf_to_a4` runs only for accepted names. It reads the document's pages and, for each page in order, sets the media box's lower-left corner to (0, 0) and its upper-right corner to (595, 842). It then appends the page to a writer and writes the writer to the output file.
- Any exception during reading, the loop or writing is caught and reported. A rejected name is reported as not supported, and nothing is read or written.

The media box is the `MediaBox` entry of a page object, as defined in ISO 32000-1:2008 section 7.7.3.3.

Files:

- `wrappers.dfy` holds `Option` and `Result`.
- `strings.dfy` (module `Strings`) covers Python's `str.split` with a one-character separator and its inverse `join`. It also has the text after the last occurrence of a character (`str.rfind` plus slicing) and `str.lower`.
- `paths.dfy` (module `Paths`) covers POSIX `os.path.basename` and the output-path f-string.
- `pages.dfy` (module `Pages`) holds the media-box rectangle, pages, the per-page reset, the whole-document reset used as the loop's specification, and the writer's page list.
- `resize_pdf.dfy` (module `Pdf`) holds the class `ResizePdf`. Its fields are `const`, because `__init__` sets them and nothing reassigns them. The class has `IsPdf` and `ResizePdfToA4`. `ResizePdfToA4` copies the read pages into an array (the reader's page buffer) and rewrites them in place in a `for` loop, appending each one to a `Writer` object.

PDF parsing and serialisation are foreign calls, so they become parameters of `ResizePdfToA4`:

- `document` is either the page sequence the reader produced or the error raised while opening or parsing the input.
- `writeFailure` is the error raised while writing the output, if there was one.

A page is its media box plus an opaque content value of a type parameter `C`. The loop never looks at that content.

The format table holds only `"A4" -> (210, 297)`, nothing reads it, and the corner (595, 842) is a literal (src/pdf.py:40-42, 62).

## Model

| member | source | states |
|---|---|---|
| `Pdf.ResizePdf.constructor` | src/pdf.py:31-42 | The stored filename is the basename of the input path. The output path is the output directory, `/`, then that basename. The format is the argument, or "A4" when the argument is falsy. The document type is "pdf". The format table maps only "A4", to (210, 297). |
| `Paths.Basename` | src/pdf.py:34 | The basename contains no `/`. It is a suffix of the path and is either the whole path or the text right after a `/`. |
| `Strings.AfterLast` | src/pdf.py:34 | The text after the last occurrence of a character is a suffix free of that character, and it is either the whole string or preceded by that character. |
| `Strings.AfterLastUnique` | src/pdf.py:34 | Only one suffix has that property, so any such suffix is the result of `AfterLast`. |
| `Paths.OutputFile` | src/pdf.py:35 | The output path starts with the output directory, then `/`, and ends with the file name. Its length is the sum of those lengths. |
| `Paths.OutputKeepsName` | src/pdf.py:34-35 | The basename of the output path is the basename of the input path, for any output directory. |
| `Paths.BasenameOfPlainName` | src/pdf.py:34 | A name without `/` is its own basename. |
| `Pdf.FormatOrDefault` | src/pdf.py:37 | The chosen format is never empty. It is the argument when the argument is a non-empty string, and "A4" otherwise. |
| `Strings.Split` | src/pdf.py:47 | `str.split(sep)` always returns at least one piece. |
| `Strings.JoinSplit` | src/pdf.py:47 | Joining the pieces of a split with the same separator gives back the original string. |
| `Strings.SplitJoin` | src/pdf.py:47 | Splitting a join of separator-free pieces gives back exactly those pieces. |
| `Strings.SplitPiecesFree` | src/pdf.py:47 | No piece of a split contains the separator. |
| `Strings.SplitFree` | src/pdf.py:47 | A string without the separator splits into itself alone. |
| `Strings.SplitAfterPiece` | src/pdf.py:47 | A separator-free prefix followed by the separator becomes the first piece, and the rest splits on its own. |
| `Strings.SplitSingleIff` | src/pdf.py:47 | A split has exactly one piece if and only if the separator does not occur. |
| `Strings.LastPieceShape` | src/pdf.py:47 | The last piece of a split (`[-1]`) is a separator-free suffix. It is either the whole string or preceded by the separator. |
| `Strings.LastPieceStep` | src/pdf.py:47 | The last piece of a split is the first character joined to the rest's only piece when that character is not the separator and the rest has no separator; otherwise it is the rest's last piece. |
| `Strings.LastPieceIsAfterLast` | src/pdf.py:47 | The last piece of `s.split(c)` equals the text after the last `c` in `s`. |
| `Strings.Lower` | src/pdf.py:47 | Lowering keeps the length and maps each character by ASCII lower-casing. |
| `Strings.LowerCharIff` | src/pdf.py:47 | A character lowers to a given lower-case letter if and only if it is that letter or its capital. |
| `Strings.LowerIsPdfIff` | src/pdf.py:47 | A string lowers to "pdf" if and only if it is p, d, f, each letter in either case. |
| `Pdf.ExtensionIs` | src/pdf.py:47 | The split-based comparison agrees with a reference definition: the text after the last dot, lowered, equals the document type. |
| `Pdf.PdfExtensionIff` | src/pdf.py:47 | A name is accepted as "pdf" if and only if it ends in p, d, f (either case) and those three letters are the whole name or follow a dot. |
| `Pdf.ExtensionOfLastPiece` | src/pdf.py:47 | Only the last piece matters: `prefix + "." + rest` is accepted exactly when `rest` is, whatever the prefix. |
| `Pdf.PdfNamesAccepted` | src/pdf.py:47 | `a.pdf`, `b.PDF`, `x.tar.pdf`, `.pdf` and the bare `pdf` are accepted. |
| `Pdf.NonPdfNamesRejected` | src/pdf.py:47 | `c.txt`, `report.pdf.txt`, `d`, the empty name and `apdf` are rejected. |
| `Pdf.ResizePdf.IsPdf` | src/pdf.py:45-47 | `is_pdf` holds if and only if the stored filename ends in a case-insensitive "pdf" that is the whole name or follows a dot. |
| `Pages.SetLowerLeft` | src/pdf.py:61 | Setting `lower_left` changes the first two coordinates to the given point and keeps the other two. |
| `Pages.SetUpperRight` | src/pdf.py:62 | Setting `upper_right` changes the last two coordinates to the given point and keeps the other two. |
| `Pages.ResetBox` | src/pdf.py:60-62 | After both assignments the page's box is (0, 0)-(595, 842), whatever it was, and the page's content is unchanged. |
| `Pages.ResetAll` | src/pdf.py:58-64 | The document after the loop has as many pages as before. Every box is (0, 0)-(595, 842), and each page keeps the content of the page at the same position. |
| `Pages.ResetAllCharacterized` | src/pdf.py:58-64 | A page sequence is the loop's result if and only if every box is (0, 0)-(595, 842) and the contents match the input position by position. |
| `Pages.ResetEachIsResetAll` | src/pdf.py:58-64 | Resetting every page at its own position, with the page count unchanged, yields exactly the loop's result `ResetAll`. |
| `Pages.ResetAllIdempotent` | src/pdf.py:58-62 | Running the rewrite on its own output changes nothing. |
| `Pages.ResetAllFixesA4` | src/pdf.py:58-62 | A document whose boxes are all already (0, 0)-(595, 842) is left as it is. |
| `Pages.ResetAllAppend` | src/pdf.py:58-64 | Each page is rewritten on its own: the rewrite of `a + b` is the rewrite of `a` followed by the rewrite of `b`. |
| `Pages.Writer.constructor` | src/pdf.py:56 | A new writer has no pages. |
| `Pages.Writer.AddPage` | src/pdf.py:64 | `add_page` appends the page to the end of the writer's page list. |
| `Pdf.ResizePdf.ResizePdfToA4` | src/pdf.py:49-77 | A rejected name gives "not supported", and the document and write parameters have no effect. A read error gives `Failed` with that error. A write error gives `Failed` with that error. Otherwise the output path receives the reset document, with the same page count and order and each box set to (0, 0)-(595, 842). |

## Left out

- Reading and writing with PyPDF2, and the file handles they use (src/pdf.py:54-56, 66-67), are foreign library and I/O calls. They are the parameters `document` and `writeFailure`.
- An exception raised inside the page loop by the PDF library is counted as a reading failure. The reader and writer are local to the `with` block, so the only visible result of such a failure is the reported error.
- On a write failure the output file may already exist, truncated by `open(..., 'wb')`. The model records only the reported error.
- Closing the input and output files on every exit path is not modelled.
- The console messages (src/pdf.py:69, 73, 77) are reduced to the `Outcome` value.
- The module-level example invocation (src/pdf.py:79-81) and the commented-out copy of the function (src/pdf.py:7-27) contain no further logic.
- `desired_format` and the format table are stored but never read. Nothing converts millimetres to points.
- Cropping, trim and other boxes are not modelled. PyPDF2 copies a page into the writer on `add_page`; the model treats the writer's page as an equal value.
- Paths.Basename: models POSIX `os.path.basename` (split on `/`). The Windows variant, which also splits on `\` and drive letters, is not modelled.
- Strings.Lower: lowers only ASCII `A`-`Z`. Python's full Unicode lower-casing is not modelled.
- src/script.js and src/converter.js are separate pdf-lib scripts. They use floating-point aspect-ratio fitting and asynchronous file I/O, and they are not part of this model.
