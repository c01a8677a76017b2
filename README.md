# Markdown to HTML conversion of `generate_readme_pdf.py`

This project models `markdown_to_html`, the hand-written converter that turns the repository's
README into the HTML page a PDF renderer then lays out. The converter splits the document on
newlines and strips each line. It then classifies each line by its prefix under two flags,
"inside a code block" and "inside a list":

- code fence
- `## `, `### ` or `#### ` header (the marker followed by a space)
- `- ` or `* ` list item (the marker followed by a space)
- table row
- `---` rule
- blank line
- plain text

A header or list marker without its trailing space (`##x`, `-x`) is not a header or a list item.
Such a line is plain text.

Each class appends zero, one or two HTML fragments to a list. The joined fragments are placed inside
a fixed page (doctype, head with style sheet, body).

Modules:

- `Text` (text.dfy) gives the Python string operations the converter uses, with Python's meaning:
  - `str.strip()` over Python's whitespace set;
  - `startswith`;
  - `split('\n')`;
  - `replace(pat, '')`;
  - `''.join`.
- `Inline` (inline.dfy) covers the plain-text cleanup. It removes `**` and backticks. The one regular
  expression, `\[([^\]]+)\]\([^\)]+\)`, is modelled as a deterministic left-to-right scan (`LinkAt`,
  `StripLinks`). `LinkAt`'s contract shows that the match it finds is the only one the pattern allows
  at that position.
- `Template` (template.dfy) holds the page text before and after the joined fragments, copied from
  the f-string with its doubled braces undone.
- `Converter` (converter.dfy) does the conversion. `Step` is one turn of the loop, `Scan` the loop,
  and `Parts` the fragment list. `HtmlParts` is the imperative loop, with the list and the two
  flags as local state, proved equal to `Parts`. `MarkdownToHtml` wraps the joined fragments in the
  page.

Behaviour of the code that the model keeps and proves:

- The "skip title line" test (line 35) can never succeed. The content div is appended before the
  loop, so the fragment list is never empty.
- A leading `# Title` therefore yields both `<h1>Title</h1>` and a paragraph `<p># Title</p>`.
- Fences and headers do not close an open list. Table rows are skipped and leave the list open.
- The cleanup does not guarantee text free of `**`. Bold markers are removed first. Removing
  backticks afterwards can join two single asterisks, so the three characters star, backtick, star become `**`.
- Nothing is HTML-escaped. List balance is therefore stated over fragments: a fragment that is
  exactly `<ul>` or `</ul>`. It is not stated over substrings of the joined page.

## Model

| member | source | states |
|---|---|---|
| `Text.TrimStartSpec` | generate_readme_pdf.py:32 | what the left strip keeps is a suffix of the line; all it drops is whitespace; it does not start with whitespace |
| `Text.TrimEndSpec` | generate_readme_pdf.py:32 | what the right strip keeps is a prefix of the line; all it drops is whitespace; it does not end with whitespace |
| `Text.StripIsTrimmedSlice` | generate_readme_pdf.py:32 | `strip()` gives the slice between a whitespace-only head and a whitespace-only tail, with no whitespace at either end |
| `Text.StripUntrimmed` | generate_readme_pdf.py:32 | a line with no whitespace at either end is its own strip |
| `Text.StripIdempotent` | generate_readme_pdf.py:32 | stripping twice is stripping once |
| `Text.StripKeepsFirst` | generate_readme_pdf.py:32 | a line that starts with a non-space character keeps that character first after stripping, as a prefix of the line |
| `Text.SplitLines` | generate_readme_pdf.py:31 | `split('\n')` returns at least one piece, and no piece holds a newline |
| `Text.JoinSplitLines` | generate_readme_pdf.py:31 | joining the pieces with newlines gives back the document |
| `Text.SplitJoinLines` | generate_readme_pdf.py:31 | splitting a join of newline-free pieces gives back the pieces, so split and join are inverse |
| `Text.FirstLineKeepsPrefix` | generate_readme_pdf.py:22-23 | the first piece of the split starts with every newline-free prefix of the document |
| `Text.RemoveAll` | generate_readme_pdf.py:80 | `replace(pat, '')` never lengthens the text and adds no character |
| `Text.RemoveCharExact` | generate_readme_pdf.py:80 | removing one character leaves none of it and every other character as often as before |
| `Text.RemoveAbsent` | generate_readme_pdf.py:80 | replacing a pattern whose first character is absent changes nothing |
| `Text.RemoveAllKeepsFirst` | generate_readme_pdf.py:80 | a first character that does not begin the pattern stays first |
| `Text.RemoveBoldLeavesNoDoubleStar` | generate_readme_pdf.py:80 | after `replace('**', '')` no two asterisks are adjacent |
| `Text.ConcatAppend` | generate_readme_pdf.py:189 | `''.join` of two runs of fragments is the join of the first followed by the join of the second |
| `Inline.NextIndexOf` | generate_readme_pdf.py:84 | the scan for a delimiter stops at its first occurrence, or at the end when there is none |
| `Inline.LinkAt` | generate_readme_pdf.py:84 | a match found at the start of the text is a link with non-empty text and url; whenever the pattern can match there, this is the match |
| `Inline.StripLinks` | generate_readme_pdf.py:84 | the substitution never lengthens the text, adds no character, and gives empty output only for empty input |
| `Inline.StripLinksReplacesLink` | generate_readme_pdf.py:84 | a leading `[text](url)` with non-empty text and url, the text holding no `]` and the url no `)`, is replaced by `text`, and the scan continues after `)` |
| `Inline.StripLinksWithoutBracket` | generate_readme_pdf.py:84 | text without `[` is unchanged |
| `Inline.StripLinksKeepsFirst` | generate_readme_pdf.py:84 | a first character other than `[` is copied and the scan moves on by one |
| `Inline.StripLinksCopiesUnmatched` | generate_readme_pdf.py:84 | where the pattern has no match at the start (a `[` that opens no link, such as `[]`, `[x` or `[a]b`), the first character is copied and the scan moves on by one |
| `Inline.CleanMarkersDropsBackticks` | generate_readme_pdf.py:80 | the cleaned text holds no backtick; the second backtick pass is a no-op; every character other than `*` and backtick keeps its count |
| `Inline.RemoveBoldKeepsOthers` | generate_readme_pdf.py:80 | removing `**` keeps the count of every character other than `*` |
| `Inline.ParagraphTextClean` | generate_readme_pdf.py:79-85 | paragraph text holds no backtick, is empty exactly when the cleaned line is, and holds no character the line lacks |
| `Inline.BacktickRemovalCanJoinStars` | generate_readme_pdf.py:80 | star, backtick, star has no `**` after the bold pass but becomes `**` after the backtick pass |
| `Converter.HtmlParts` | generate_readme_pdf.py:18-90 | the loop over the stripped lines, with its two flags, builds exactly `Parts(content)`, and its `<ul>`/`</ul>` fragments are balanced |
| `Converter.MarkdownToHtml` | generate_readme_pdf.py:92-194 | the page is the fixed head, then the joined fragments, then the fixed tail |
| `Converter.StepAppends` | generate_readme_pdf.py:38-85 | each line keeps every fragment emitted so far and adds at most two |
| `Converter.ScanAppends` | generate_readme_pdf.py:31-85 | more lines only extend the fragment list, by at most two fragments per line |
| `Converter.PartsBound` | generate_readme_pdf.py:18-90 | the fragment list has at most two fragments per input line plus four |
| `Converter.TitleGuardNeverFires` | generate_readme_pdf.py:26-36 | at every turn of the loop the fragment list is non-empty, so the title-skip test is false |
| `Converter.FirstLineHoldsTitle` | generate_readme_pdf.py:21-23 | for a document starting with `# `, the first line starts with `# ` and the title is that line after the marker, stripped |
| `Converter.PartsExtendStart` | generate_readme_pdf.py:26-90 | the final fragment list begins with the fragments emitted before the loop and ends with `</div>` |
| `Converter.TitleAndFrame` | generate_readme_pdf.py:20-90 | the first fragment is an `<h1>` exactly when the document starts with `# `; it is the title element, then the content div comes; otherwise the content div comes first; the last fragment is `</div>` |
| `Converter.JoinedBodyFrame` | generate_readme_pdf.py:189 | the joined fragments start with the title element (if any) and the content div, and end with `</div>` |
| `Converter.FenceFlipsCodeBlock` | generate_readme_pdf.py:39-41 | a fence line emits nothing and only flips the code-block flag |
| `Converter.CodeLineIsPreformatted` | generate_readme_pdf.py:43-45 | inside a code block every other line emits one `<pre>` fragment of the stripped line, and the list flag is unchanged |
| `Converter.TableRowIgnored` | generate_readme_pdf.py:60-61 | outside a code block a line starting with `|` emits nothing and changes no state |
| `Converter.HeaderElement` | generate_readme_pdf.py:48-53 | a header line emits one `h2`/`h3`/`h4` element with the text after its marker, and neither flag changes |
| `Converter.ListItemElement` | generate_readme_pdf.py:55-59 | a list item emits `<ul>` only if no list was open, then `<li>` with the text after the marker; a list is open afterwards |
| `Converter.RuleAndBlankLine` | generate_readme_pdf.py:62-72 | a rule or a blank line emits `</ul>` if a list was open, then `<hr>` or `<br>`; no list is open afterwards |
| `Converter.PlainTextParagraph` | generate_readme_pdf.py:74-85 | plain text emits `</ul>` if a list was open; it then emits a paragraph of the cleaned, link-stripped text only if the cleaned text is non-empty; no list is open afterwards |
| `Converter.TitleLineIsPlainText` | generate_readme_pdf.py:74-85 | the stripped `# ` title line is plain text whose paragraph text is non-empty and starts with `#` |
| `Converter.TitleLineAlsoParagraph` | generate_readme_pdf.py:26-85 | for a document starting with `# `, the third fragment is the paragraph made from the title line |
| `Converter.TitleLineVerbatimParagraph` | generate_readme_pdf.py:26-85 | a title line without `*`, backtick or `[` becomes the paragraph `<p># Title</p>` unchanged |
| `Converter.ParagraphTextUnchanged` | generate_readme_pdf.py:80-84 | cleanup leaves a line without `*`, backtick or `[` as it is |
| `Converter.CloseListKeepsInvariant` | generate_readme_pdf.py:63-77 | closing a list keeps the flag in step with the fragments and leaves no list open |
| `Converter.StepKeepsListInvariant` | generate_readme_pdf.py:38-85 | every turn keeps the invariant: the list flag is set exactly when one more `<ul>` than `</ul>` was emitted, and no prefix ever has two open |
| `Converter.StartKeepsListInvariant` | generate_readme_pdf.py:18-30 | before the loop both flags are down and no `<ul>` or `</ul>` has been emitted, so the list-flag invariant holds from the start |
| `Converter.LoopKeepsListInvariant` | generate_readme_pdf.py:31-85 | after any number of turns of the loop over the document's lines, the list flag is set exactly when one more `<ul>` than `</ul>` has been emitted, and no prefix has two lists open |
| `Converter.ScanKeepsListInvariant` | generate_readme_pdf.py:31-85 | the whole loop keeps the list-flag invariant |
| `Converter.ListBalance` | generate_readme_pdf.py:56-90 | in the final fragment list every prefix has at most one list open and none closed that was not opened, and all lists are closed |
| `Converter.ListOpensAlternate` | generate_readme_pdf.py:56-58 | between any two `<ul>` fragments there is a `</ul>` |

## Left out

- Reading the Markdown file (generate_readme_pdf.py:14-15) is I/O. The model takes the decoded
  text as a parameter. Python's universal-newline translation on read happens before that text.
- `create_pdf` (generate_readme_pdf.py:196-220) is left out. It writes temporary files, calls the
  external PDF renderer and falls back to writing HTML when that fails. All of it is I/O and a
  foreign call.
- The `__main__` block (generate_readme_pdf.py:222-230) is left out. It only checks that a file
  exists and exits the process.
- generate_pdf.py is not part of this model. It registers fonts (filesystem and subprocess calls)
  and feeds hardcoded sections to a layout library.
- The style sheet in the page is kept only as constant text. Nothing is proved about it.
- Python's general regular-expression engine is not modelled. Only the one link pattern at line 84
  is, as a deterministic scan.
- Python strings may hold lone surrogate code points. Dafny characters cannot, so such input is
  outside the model.
- `Inline.CleanMarkersDropsBackticks`: counts characters rather than fixing their order. The
  functions themselves keep the order exactly.
