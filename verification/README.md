# policense core, modelled in Dafny

policense is a command-line tool. It prints a software license text with its
placeholders filled in, and it prints a short summary of a license from its
catalog. This project models the logic behind those two outputs as pure Dafny
functions and proves properties about them:

- **Rendering** (`gen_license_text`) makes four `str.replace` passes, in this
  order:
  - `[year]` becomes the year;
  - `[fullname]` becomes the name, or the name read from `hg` for the sentinel `hg`;
  - `[email]` becomes ` <address>`, an address read from `git`/`hg`, or the
    empty string;
  - `[projectname]` becomes the project name.
- **Identity lookups** (`get_git_info`, `get_hg_info`) read the decoded output of
  `git config --get user.<field>` or `hg config ui.username`. From the `hg`
  output they project:
  - the name: every word but the last;
  - the email: the last word, with one `<` and one `>` trimmed;
  - otherwise, the words joined by single spaces (a branch the program never
    takes: it asks only for the name and the email).
- **Summary** (`print_license_data`) projects a catalog record onto the ordered
  lines it prints: the title, the wrapped description, the numbered references,
  six tick/cross flags, the intended use, and the optional permission,
  condition and limitation sections.
- **Catalog keys** are upper-cased before they name the file
  `<dir>/license/<KEY>.toml`.

Modules:

- `Wrappers`: `Option`, `Result` and the Python exceptions the core can raise.
- `PyStr`: the Python string primitives the core uses, on `seq<char>`:
  - `str.replace`, modelled as a left-to-right scan;
  - `str.split(sep)`, `sep.join`, `str.find`.
  
  It proves that the scanning replace agrees with an independent definition,
  the identity `s.replace(p, r) == r.join(s.split(p))` for a non-empty `p`.
- `PyWords`: `str.split()` with no argument (runs of whitespace) and
  `bytes.strip()` (ASCII whitespace).
- `VcsIdentity`: the git and hg lookups. Each takes the process output as a
  parameter.
- `Render`: `gen_license_text` and its pass structure.
- `RenderTemplate`: a license body seen as literal segments and bracketed
  placeholders. It proves what rendering does to each segment.
- `Summary`: `print_license_data` as a list of abstract lines, plus readers that
  recover the flags, references and sections from those lines.
- `CatalogKey`: `str.upper()` on keys and the catalog path built from it.

Behaviour of the code worth knowing, all of it kept in the model:

- **Sections.** A section is printed whenever its key is present, even when
  its list is empty (`if "permissions" in license`).
- **Failed name lookup.** A missing name does not fall back to an empty value.
  This covers both a failed `git` default and a failed `hg` lookup. The `None`
  reaches `str.replace` and raises `TypeError`. A failed *email* lookup does
  collapse to the empty string (the ` <None>` check).
- **hg email parsing.** If the hg output has no words, or its last word is
  exactly `<`, parsing raises `IndexError`. Nothing catches it, so it escapes
  rendering. The model keeps this as `Failure(IndexError)`.
- **Leftover `[email]`.** The text can still contain `[email]` after rendering
  with no email. Removing one occurrence can join the text around it into a
  new one (`RenderTemplate.ResidualEmailToken`). A project name that contains
  the token also leaves it, because the project-name pass runs last.

## Model

| member | source | states |
|---|---|---|
| PyStr.Split | policense/policense.py:91 | `str.split(sep)` yields at least one piece, and no piece contains the separator |
| PyStr.SplitLeftmost | policense/policense.py:91 | the cuts of `str.split(sep)` fall at the leftmost occurrences: one piece exactly when `sep` does not occur, the first piece ends where `str.find` finds it, and the rest splits what follows |
| PyStr.JoinSplit | policense/policense.py:91 | joining the pieces of a split with the same separator gives the string back |
| PyStr.ReplaceWithoutOccurrence | policense/policense.py:91 | `str.replace` leaves a string without the pattern unchanged |
| PyStr.ReplaceIsJoinOfSplit | policense/policense.py:91 | `PyStr.Replace`, the left-to-right scan that models `str.replace`, equals the independent definition `repl.join(s.split(pat))` |
| PyStr.ReplaceSelf | policense/policense.py:107 | replacing a token by itself is the identity (the default `[projectname]` pass) |
| PyStr.JoinLength | policense/policense.py:83 | `PyStr.Join` (`sep.join`) of n parts has the parts' total length plus n-1 separators |
| PyStr.ReplaceLength | policense/policense.py:91 | each counted occurrence changes the length by `len(repl) - len(pat)` |
| PyWords.WordLen | policense/policense.py:69 | the first word of a string ends at the first whitespace character |
| PyWords.Words | policense/policense.py:69 | `str.split()` yields only non-empty words without whitespace |
| PyWords.Gaps | policense/policense.py:69 | the whitespace runs around the words of `str.split()`: one more than the words, whitespace only, non-empty between two words |
| PyWords.LayoutOfWords | policense/policense.py:69 | every string is its `split()` words laid out between its whitespace runs |
| PyWords.WordsOfLayout | policense/policense.py:69 | words laid out between whitespace runs (any runs at the ends, non-empty runs between) split back into exactly those words, in order |
| PyWords.StripBounds | policense/policense.py:56 | the kept range of `bytes.strip()` starts and ends on non-ASCII-whitespace, with only ASCII whitespace cut away |
| PyWords.Strip | policense/policense.py:56 | `bytes.strip()` cuts only ASCII whitespace, and only from the two ends, and leaves no ASCII whitespace at either end; a string already trimmed is unchanged |
| PyWords.WordsOfStrip | policense/policense.py:69 | stripping before `split()` does not change the words |
| PyWords.WordsOfJoin | policense/policense.py:83 | splitting words joined by single spaces gives the words back |
| VcsIdentity.GitInfo | policense/policense.py:52-60 | `get_git_info`: `None` exactly when git fails; otherwise the output with only its leading and trailing ASCII whitespace cut away |
| VcsIdentity.HgName | policense/policense.py:69-83 | the name projection is the words of the output minus the last, joined by single spaces; it is empty for zero or one word |
| VcsIdentity.TrimAngles | policense/policense.py:73-77 | removing one leading `<` and one trailing `>` from the last word fails exactly for the empty word and for `<`; otherwise the word is exactly an optional `<` (present iff it starts with `<`), the result, and an optional `>` (present iff it ends with `>`) |
| VcsIdentity.HgEmail | policense/policense.py:72-78 | the email projection raises `IndexError` exactly when there is no word or the last word is `<`; otherwise the last word is exactly an optional leading `<`, the whitespace-free result, and an optional trailing `>` |
| VcsIdentity.HgWhole | policense/policense.py:79-83 | the fall-through projection is the words of the output joined by single spaces, so runs of whitespace collapse (the program never asks for it: only "name" and "email" are requested) |
| VcsIdentity.HgWholeIdempotent | policense/policense.py:79-83 | the fall-through projection applied to its own result changes nothing |
| VcsIdentity.HgInfo | policense/policense.py:63-83 | `get_hg_info`: `None` when hg fails; otherwise the name, email or whole projection the field asks for; `IndexError` only for the email field, and only when that projection raises |
| VcsIdentity.UsernameWords | policense/policense.py:66-69 | the words of `First Last <email>` are the name words and the quoted address |
| VcsIdentity.HgNameRoundTrip | policense/policense.py:66-71 | for a username `names <email>`, the name projection returns the names joined by single spaces |
| VcsIdentity.HgEmailRoundTrip | policense/policense.py:66-78 | for a username `names <email>`, the email projection returns the bare address |
| VcsIdentity.HgUsernameExample | policense/policense.py:66-78 | `First Last <a@b>` gives the name `First Last` and the email `a@b` |
| VcsIdentity.HgNameSingleWord | policense/policense.py:69-71 | a one-word username gives an empty name |
| VcsIdentity.HgEmailIndexErrors | policense/policense.py:72-75 | empty output, and a last word of exactly `<`, raise `IndexError` |
| Render.ApplyPassesAppend | policense/policense.py:91-107 | running one list of passes after another is running the concatenated list |
| Render.ApplyPassesUntouched | policense/policense.py:91-107 | text that contains none of the passes' tokens goes through every pass unchanged |
| Render.ResolveFullname | policense/policense.py:92-94 | the `hg` sentinel is replaced by the output's words minus the last, joined by single spaces (`None` when hg fails); any other name passes through |
| Render.EmailText | policense/policense.py:95-105 | the `[email]` value: empty for no email; ` <e>` for a plain address (empty for the text `None`); for `git`, ` <a>` for the looked-up address `a`, and empty exactly when the lookup fails or reads `None`; for `hg`, ` <a>` for the projected address `a` (empty when it is `None`), empty when hg fails, and `IndexError` exactly when the projection raises; every non-empty value has the form ` <…>` and is never ` <None>` |
| Render.Bracketed | policense/policense.py:97-105 | the f-string ` <{v}>` and the ` <None>` check: empty exactly when `v` prints as `None` (a missing value or the text `None`), otherwise ` <v>` |
| Render.FormatNone | policense/policense.py:97-99 | an f-string prints an optional value as `None` exactly for a missing value and for the text `None` |
| Render.BracketedNone | policense/policense.py:104-105 | ` <v>` equals ` <None>` exactly when `v` is `None` |
| Render.GenLicenseText | policense/policense.py:86-108 | rendering fails exactly when the name resolves to `None` (giving `TypeError`, raised first) or the email lookup raises (giving the `IndexError` that escapes); otherwise the result is the four passes year, fullname, email, projectname applied in that order |
| Render.FourPasses | policense/policense.py:91-107 | the pass list is the program's four nested `replace` calls |
| Render.RenderWithoutTokens | policense/policense.py:86-108 | a body without placeholders is returned unchanged |
| Render.RenderIdempotent | policense/policense.py:86-108 | rendering a placeholder-free result a second time changes nothing |
| Render.ProjectnamePassLast | policense/policense.py:106-108 | the result of a successful rendering is the text after the year, name and email passes with `[projectname]` replaced; nothing rewrites the project name afterwards |
| Render.DefaultProjectnameKeepsToken | policense/options.py:78-84 | with the default project name `[projectname]`, the last pass is the identity |
| RenderTemplate.Substitute | policense/policense.py:91 | on segments, one pass turns each occurrence of the placeholder into its value and keeps every other segment |
| RenderTemplate.Fill | policense/policense.py:91-107 | the four passes on segments map each known placeholder to its value and keep literals and unknown placeholders |
| RenderTemplate.ReplaceFreePrefix | policense/policense.py:91 | text without `[` is copied verbatim ahead of the rest |
| RenderTemplate.ReplaceOtherToken | policense/policense.py:91 | a pass leaves another bracketed placeholder at the front untouched |
| RenderTemplate.ReplaceThisToken | policense/policense.py:91 | a pass rewrites its own placeholder at the front and continues after it |
| RenderTemplate.ReplaceSegments | policense/policense.py:91 | on well-formed text, `str.replace` of a placeholder is the segment substitution |
| RenderTemplate.SubstituteWellFormed | policense/policense.py:91-107 | a pass whose value has no `[` keeps the body well-formed for the next pass |
| RenderTemplate.RenderFillsPlaceholders | policense/policense.py:86-108 | for a well-formed body and values without `[`, rendering fills each known placeholder with its value and keeps everything else |
| RenderTemplate.CopyrightLineWithEmail | policense/policense.py:86-108 | `Copyright [year] [fullname][email].` with 2024, Jane Doe and jane@x.org renders as `Copyright 2024 Jane Doe <jane@x.org>.` |
| RenderTemplate.CopyrightLineWithoutEmail | policense/policense.py:100-106 | without an email, the same line renders as `Copyright 2024 Jane Doe.` |
| RenderTemplate.YearValueMeetsNamePass | policense/policense.py:91-94 | example: the body `[year]` with year `[fullname]` and name `A` renders as `A`, because the later name pass rewrites the year value |
| RenderTemplate.ProjectnameValueSurvives | policense/policense.py:107 | example: the body `[projectname]` with project name `[year]` renders as `[year]` |
| RenderTemplate.ResidualEmailToken | policense/policense.py:106 | removing `[email]` from `[[email]email]` leaves `[email]` in the text |
| Summary.ApprovalFlag | policense/policense.py:133-141 | FSF/OSI: a tick exactly when the value is truthy, never with a note |
| Summary.GplFlag | policense/policense.py:143-153 | GPL compatibility: a cross only for `False`; a note exactly for non-boolean values, and that note is the value |
| Summary.CopyleftFlag | policense/policense.py:155-159 | copyleft: a tick exactly when truthy, and then always noted with the value's text (`True` included) |
| Summary.LinkingFlag | policense/policense.py:161-177 | linking: a tick only for `True`; every other value is a cross noted with the value's text |
| Summary.Summarize | policense/policense.py:111-194 | line by line: the title; the description wrapped at 70; references numbered from 1 in stored order; the six flags and the intended use; then the sections |
| Summary.SummaryFlag | policense/policense.py:133-177 | reading a label's flag back from the summary gives the flag the record determines |
| Summary.ReferenceLinksOfLines | policense/policense.py:129-131 | the numbered reference lines hold exactly the record's links, in order |
| Summary.SummaryReferences | policense/policense.py:129-131 | the references read back from the summary are the record's references, none when the key is absent |
| Summary.SectionOfLines | policense/policense.py:182-194 | a printed section reads back as exactly its items |
| Summary.SectionsReadBack | policense/policense.py:182-194 | each section reads back as the record's field: absent when its key is absent, its list (even empty) when present |
| Summary.SummarySection | policense/policense.py:182-194 | the same holds for the whole summary |
| Summary.FlagScenarios | policense/policense.py:155-169 | copyleft `False` is a plain cross, `True` a tick noted `True`, `weak` a tick noted `weak`; GPL `v3 only` is a tick with that note; static linking `False` is a cross noted `False` |
| CatalogKey.Upper | policense/policense.py:213 | `str.upper()` keeps the length, maps each character, leaves no lower-case letter, and changes nothing without one |
| CatalogKey.UpperIdempotent | policense/policense.py:241 | upper-casing an already upper-cased key changes nothing |
| CatalogKey.UpperSameIgnoringCase | policense/policense.py:213 | two keys upper-case to the same text exactly when they differ only in ASCII letter case |
| CatalogKey.CatalogPathCaseInsensitive | policense/policense.py:123 | two keys give the same catalog path exactly when they differ only in ASCII letter case |

## Left out

- Running `git` and `hg`: each lookup receives the process's decoded output, or `None` for `CalledProcessError`/`FileNotFoundError`. Both hg queries of one rendering read the same output.
- Decoding the output as UTF-8: the output arrives as text, and a decoding error is not modelled.
- Loading the TOML catalog (`get_license_info`): a license arrives as a record. The scalar keys the summary reads are mandatory fields, so a missing key (a `KeyError` in the code) is not modelled. `name` and `intended_for` are strings.
- Summary.Value: the flag keys hold booleans or strings. Other TOML values (numbers, lists, tables) are not modelled; their truthiness and printed forms are Python's.
- Summary.Summarize: `textwrap.wrap(description, width=70)` is a parameter of the function, not modelled; only its position and the width 70 are stated.
- Summary.Summarize: every value except the section items (which `print` writes) is parsed as prompt_toolkit HTML. Text that is not well-formed XML (a `&` or `<` in the name, a description line, a link, a flag note or the intended use) raises `ExpatError` partway through, and entities and tags are interpreted; the model assumes plain text and returns every line with its raw value.
- Styling in the summary (prompt_toolkit HTML colours, bold, italics, the blank line before a section heading): lines are abstract values.
- `main`, argument parsing in `policense/options.py` and `save_license_to_file`. These are I/O and option plumbing. The option defaults enter only as values, e.g. `DefaultProjectname`.
- License detection (`--what`, `licensename`, standard input): an external library, outside the core.
- The version banner and the help hint: printing only.
- CatalogKey.Upper: upper-cases ASCII letters only; Python's `str.upper()` also maps non-ASCII letters, some to several characters.
- PyStr.Replace: requires a non-empty pattern; every call in the program passes a placeholder literal, and Python's empty-pattern behaviour is not modelled.
- The handling of an `IndexError` from `main`: none exists; the model returns it as a `Failure`.
