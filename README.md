# Resume extractor, modelled in Dafny

This project models the text-to-HTML core of `resume_mining/extract_resume.py`. That script turns a
plain-text resume into the HTML that the personal site's page template receives. It has four
stages:

- **Normaliser** (`clean_resume`). Every line has its tabs, newlines, `?` and `:` turned into
  spaces (module `Normalizer`).
- **Section extractor** (`extract_ref_line` and the lookup and slicing in the entry point). The
  line `"References Available Upon Request "` is popped in place from the cleaned lines. The first
  position of each header literal is then looked up: `"SKILLS AND KNOWLEDGE  "`, `"EXPERIENCE  "`,
  `"EDUCATION  "`. Finally the lines are cut into the skills, experience and education sections
  (module `SectionExtractor`).
- **Fragment builder** (`build_html_section`). A section becomes a fixed-shape HTML block: a
  heading whose CSS token is derived from the header, a divider, and one `<li>` per line that is
  neither `""` nor `" "` (module `FragmentBuilder`).
- **Assembler** (`stitch_resume` and the entry point). The fragments are joined in `zip` order
  inside the resume container. A fixed references block is built beside them, and both slots go
  to the page template (module `Assembler`).

The Python built-ins the code relies on live in `PyBuiltins`. Each one is specified character by
character or element by element: `str.strip`, `str.lower`, `str.replace`, `str.translate`,
`list.index`, `list.pop` and slicing with clamped bounds. `ResumeTypes` holds the constants, the
failure taxonomy and the parsed `Document`.

The list that `extract_ref_line` mutates is the class `SectionExtractor.ResumeLines`. Its method
`ExtractRefLine` reassigns the `lines` field. The string accumulation of `stitch_resume` and the
list building of `build_html_section` are methods with loops. Each is proved equal to a
specification function (`ContainerHtml`, `SectionHtml`). Everything else is functions and lemmas.

Behaviour worth knowing:

- **Missing reference line.** `list.index` raises `ValueError` at line 96 (called from line 103), outside any `try`, so
  the run stops. Here it is `Failure(ReferencesNotFound)`.
- **Blank-line filter.** The raw line is tested against `''` and `' '` before it is stripped, so a
  line of two spaces gives `<li></li>` (`BlankLineListedEmpty`, `SampleItems`).
- **Missing header.** The code catches the `ValueError`, prints, and then uses names that were
  never bound (lines 114-117), so it fails anyway. Here the run ends with
  `Failure(SectionNotFound(h))` and no page is produced. `h` is the first missing header in
  `SECTIONS` order, the one `list.index` raised on.
- **Empty file.** `clean_resume` reads `resume_content[0]` to build its table, so an empty file
  raises `IndexError`. Here that is `Failure(EmptyResume)`, not a precondition.

## Model

| member | source | states |
|---|---|---|
| `PyBuiltins.LStripSpec` | resume_mining/extract_resume.py:42 | `lstrip` keeps a suffix of its input; every dropped character is whitespace (Python's `str.isspace` set); the result does not start with whitespace |
| `PyBuiltins.RStripSpec` | resume_mining/extract_resume.py:42 | `rstrip` keeps a prefix of its input; every dropped character is whitespace; the result does not end with whitespace |
| `PyBuiltins.StripSpec` | resume_mining/extract_resume.py:42 | `strip` is no longer than its input and has no whitespace at either end; it is empty exactly when the input is all whitespace |
| `PyBuiltins.Lower` | resume_mining/extract_resume.py:42-43 | same length; every character is its lower-case form (ASCII letters) |
| `PyBuiltins.ReplaceChar` | resume_mining/extract_resume.py:43 | same length; every occurrence of the old character is the new one, every other character is unchanged |
| `PyBuiltins.Translate` | resume_mining/extract_resume.py:33-35 | same length; each character the table names is mapped, every other one is kept |
| `PyBuiltins.IndexOf` | resume_mining/extract_resume.py:96 | None exactly when the element is absent; otherwise the position holds it and no earlier position does |
| `PyBuiltins.Pop` | resume_mining/extract_resume.py:97 | one shorter; elements before the index stay, later ones move down by one; the multiset loses exactly the popped element |
| `PyBuiltins.RemoveFirst` | resume_mining/extract_resume.py:95-97 | one shorter; the first occurrence is gone, earlier elements stay and later ones shift down; the multiset loses one copy; every other value is present iff it was before |
| `PyBuiltins.Slice` | resume_mining/extract_resume.py:109 | the length is the clamped span, or 0 when the start passes the end; element k is element start+k of the list |
| `Normalizer.CleanLine` | resume_mining/extract_resume.py:27-35 | same length; tab, newline, `?` and `:` become a space at the same position; every other character is unchanged; no such character is left |
| `Normalizer.CleanResume` | resume_mining/extract_resume.py:22-35 | fails (IndexError) exactly on an empty list; otherwise the list has the same length and line i is line i cleaned |
| `Normalizer.CleanLineIdempotent` | resume_mining/extract_resume.py:27-35 | cleaning a cleaned line changes nothing |
| `Normalizer.CleanResumeIdempotent` | resume_mining/extract_resume.py:33-35 | cleaning the cleaned resume gives it back unchanged |
| `SectionExtractor.ResumeLines.ExtractRefLine` | resume_mining/extract_resume.py:95-97 | fails exactly when the reference line is absent, and then leaves the list as it was; otherwise the list becomes the old list with the first reference line popped |
| `SectionExtractor.LocateHeaders` | resume_mining/extract_resume.py:106 | succeeds iff every header is present; the positions are then each header's first index, in order |
| `SectionExtractor.LocateHeadersFirstMissing` | resume_mining/extract_resume.py:106 | when every header before position k is present and header k is not, the lookup fails naming header k: the first missing one, as `list.index` raises in list order |
| `SectionExtractor.FindSections` | resume_mining/extract_resume.py:105-112 | a document exactly when all three headers are present, with its header lines equal to the three literals; otherwise the error is the first missing literal in `SECTIONS` order |
| `SectionExtractor.FoundAt` | resume_mining/extract_resume.py:106-109 | the document's header lines sit at each header's first index, and each section is the slice from after its header to the next header (the last one to the end) |
| `SectionExtractor.SectionsTile` | resume_mining/extract_resume.py:106-109 | with the headers in line order (skills, then experience, then education), header lines and sections concatenated are exactly the lines from the skills header to the end |
| `SectionExtractor.SectionsOmitLaterHeaders` | resume_mining/extract_resume.py:106-109 | skills never holds the experience header and experience never holds the education header; skills lacks the education header when that header follows the experience header, and holds it when it lies between the skills and experience headers |
| `SectionExtractor.SectionOmitsItsHeader` | resume_mining/extract_resume.py:106-109 | when each header line occurs at most once, no section holds the header that opens it |
| `SectionExtractor.MisorderedSectionIsEmpty` | resume_mining/extract_resume.py:109 | a header whose line comes before that of the previous header in `SECTIONS` order makes the previous section empty |
| `SectionExtractor.RepeatedHeaderStaysInSection` | resume_mining/extract_resume.py:106-109 | a second copy of the skills header is kept as a skills line |
| `FragmentBuilder.CssToken` | resume_mining/extract_resume.py:42-43 | the token is the heading text with every space replaced by `-`, and it contains no space |
| `FragmentBuilder.HyphenatedLowered` | resume_mining/extract_resume.py:43 | on lower-case text, lower-casing again and replacing spaces by `-` changes exactly the spaces and leaves none |
| `FragmentBuilder.LowerIdempotent` | resume_mining/extract_resume.py:43 | lower-casing the already lower-cased heading again changes nothing |
| `FragmentBuilder.PaddedHeaderText` | resume_mining/extract_resume.py:42-43 | a header written as words plus trailing spaces has those words lower-cased as its heading, and those words with hyphens for spaces as its token |
| `FragmentBuilder.BuildHtmlSection` | resume_mining/extract_resume.py:38-59 | the result is the section container, the `<h3>` heading with the token, `<hr/>`, the list items and `</ul></div>`, in that order |
| `FragmentBuilder.ListItemsSnoc` | resume_mining/extract_resume.py:50-54 | one more line adds its item at the end exactly when it passes the filter |
| `FragmentBuilder.ConcatAppend` | resume_mining/extract_resume.py:59 | joining two lists of parts is joining each and concatenating the results |
| `FragmentBuilder.ConcatFrame` | resume_mining/extract_resume.py:56-59 | joining the three opening parts, the items and the closing tags is their concatenation in that order |
| `FragmentBuilder.ListItemsCount` | resume_mining/extract_resume.py:50-54 | the number of items is the number of lines minus those equal to `""` or `" "` |
| `FragmentBuilder.ListItemsAppend` | resume_mining/extract_resume.py:50-54 | the items of two runs of lines are the first run's items followed by the second's: the filter keeps input order |
| `FragmentBuilder.BlankLineListedEmpty` | resume_mining/extract_resume.py:51-53 | a line of two or more spaces passes the filter and gives `<li></li>` |
| `FragmentBuilder.ListItemsOfFour` | resume_mining/extract_resume.py:50-54 | of four lines whose last fails the filter, the items are those of the first three, in order |
| `FragmentBuilder.SampleItems` | resume_mining/extract_resume.py:50-54 | `["Python", "  ", "Go", ""]` gives three items: `<li>Python</li>`, `<li></li>`, `<li>Go</li>` |
| `Assembler.StitchResume` | resume_mining/extract_resume.py:62-78 | the page is the renderer applied to the resume container holding the fragments of `zip(headers, sections)` in order, and to the fixed references block |
| `Assembler.ZipJoinSnoc` | resume_mining/extract_resume.py:66-69 | one more pair appends its fragment at the end of the accumulated string |
| `Assembler.ZipJoinShorter` | resume_mining/extract_resume.py:67 | pairs beyond the shorter input contribute nothing, as `zip` stops there |
| `Assembler.ZipJoinThree` | resume_mining/extract_resume.py:66-69 | three pairs join to their three fragments, in order |
| `Assembler.DocumentFragments` | resume_mining/extract_resume.py:114-117 | a document's fragments are the skills, experience and education fragments, in that order |
| `Assembler.ParseSucceeds` | resume_mining/extract_resume.py:102-112 | a document is produced iff the file is non-empty and its cleaned lines hold the reference line and all three headers; its header lines are then the three literals |
| `Assembler.RemoveFirstUnique` | resume_mining/extract_resume.py:95-97 | popping the only occurrence of a value leaves none of it |
| `Assembler.ReferenceLineNotInSections` | resume_mining/extract_resume.py:102-109 | when the reference line occurs once, no section holds it |
| `Assembler.Run` | resume_mining/extract_resume.py:99-119 | fails exactly when parsing fails, with the same error; otherwise the page is the renderer applied to the document's container and the references block |

## Left out

- Jinja2 template loading and rendering (lines 72-75, 78). This is a foreign library. The renderer
  is a parameter `render(resume_section, references)` of `StitchResume` and `Run`.
- `create_and_archive_html` (lines 81-92). It does file reads and writes and reads the current
  date.
- Reading the resume file and the diagnostic prints of the entry point (lines 100-101, 107,
  111-112, 121). They are I/O. `Run` takes the file's lines as a parameter.
- The hard-coded `Path` globals (lines 7-11). They are filesystem configuration only.
- HTML escaping. The code does none, and the model adds none.
- PyBuiltins.Lower: lower-cases ASCII letters only, where Python's `str.lower` is Unicode-aware.
  In a run it is applied only to the three ASCII header literals.
- SectionExtractor.SectionOmitsItsHeader: holds only when each header line occurs once. A repeated
  header line stays in its section (`RepeatedHeaderStaysInSection`).
- FragmentBuilder.PaddedHeaderText: states the general rule that takes `"SKILLS AND KNOWLEDGE  "`
  to the heading `skills and knowledge` and the token `skills-and-knowledge`. That literal is not
  evaluated character by character.
- Assembler.ReferenceLineNotInSections: needs the reference line to occur once. Only the first copy
  is popped, so any further copy stays where it is.
