# SOP manager API — verified model

The SOP manager keeps Markdown procedure documents ("SOPs") as flat files in one
directory and serves five HTTP handlers over them: list, read, save, create and
delete (`backend/sop-api.js`). This project models two parts of that file and
proves properties of them in Dafny:

- **The title rule** (module `TitleRule`, `title_rule.dfy`). A document's title is
  the capture of `content.match(/^#\s+(.+)$/m)`. When nothing matches, it is the file
  name with its first `.md` removed (`file.replace('.md', '')`). The regular
  expression is written out as a scanner over `seq<char>`:
  - `SpaceRunEnd` is the greedy `\s+`.
  - `CaptureStart` is its backtracking.
  - `LineEnd` is `.+` followed by `$`.
  - `MatchAt` is one attempt at one position.
  - `FirstMatchFrom` is the leftmost-first search.

  `Matches` and `FirstMatch` state declaratively what a match is and which match an
  ECMAScript engine reports (ECMA-262, section 22.2, with the `m` flag). The lemmas
  prove that the scanner returns exactly that match.
- **The document store** (module `SopApi`, `sop_api.dfy`). The directory is a
  `map<string, string>` from file name to content, held in the class `Directory`.
  Each handler is a method that returns a `Response`:
  - `Ok(data)` is status 200 with `success: true`.
  - `Fail(status, error)` has `success: false` and the handler's message: `缺少文件名` (missing file name), `文件不存在` (file does not exist) or `文件已存在` (file already exists).

  The mutating handlers (`Save`, `Create`, `Delete`) state the whole new directory
  in terms of the old one. `List` and `Content` have no `modifies` clause, so they
  cannot change the directory. The client methods at the end of the module chain
  requests together: save then read, create twice, delete then read, list then read.

Inputs that the source takes from the environment are parameters here:
- the directory listing that `readdirSync` returns, in its own order;
- the `file` query parameter, absent or present (`Option<string>`);
- the `file` and `content` fields of the parsed JSON body.

Path resolution is the identity on file names, with one exception. The empty name
resolves to the directory itself, and that path exists, so `Directory.Exists("")`
holds and `Create("")` answers 400 "file already exists". Read and delete never get
that far: they reject the empty name with 400 first.

What the code does, and the model with it:
- `\s+` may run across line breaks: `"#\n\nabc"` has the title `abc`. When the
  whitespace run reaches a line end with nothing after it, `\s+` backtracks:
  `"#  "` has the title `" "`.
- The fallback removes the first `.md` anywhere in the name, not a suffix:
  `a.md.md` becomes `a.md`.
- For save and create, `JSON.parse` runs inside the request's `'end'` callback,
  outside the `try`. A malformed body therefore throws past the `catch` and gets
  no response, and the model claims none for it.

## Model

| member | source | states |
|---|---|---|
| TitleRule.SpaceRunEnd | backend/sop-api.js:20 | the greedy `\s+` stops at the first character outside ECMAScript's `\s` class, or at the end; everything before it is whitespace |
| TitleRule.LineEnd | backend/sop-api.js:20 | `.+` followed by `$` under the `m` flag ends at the first line terminator (LF, CR, U+2028, U+2029) or at the end of input; nothing before it is a line terminator |
| TitleRule.CaptureStart | backend/sop-api.js:20 | backtracking of `\s+`: the capture starts at the last candidate position that holds a non-line-terminator; when there is none, every candidate is a line terminator or past the end |
| TitleRule.MatchAt | backend/sop-api.js:20 | a successful attempt at a position is a match of `^#\s+(.+)$`: line start, `#`, at least one whitespace, and a non-empty capture that runs to a line end |
| TitleRule.FirstMatchFrom | backend/sop-api.js:20 | returns the least position at which an attempt succeeds; no attempt at an earlier position succeeds; `None` only when no position matches |
| TitleRule.MatchAtComplete | backend/sop-api.js:20 | every match at a position is found by the attempt there, and none has a longer `\s+` run than the one reported |
| TitleRule.MatchAtGreediest | backend/sop-api.js:20 | no match at a position has a longer `\s+` run than the reported one (greedy quantifier) |
| TitleRule.CaptureEndUnique | backend/sop-api.js:20 | given where the capture starts, the capture's end is fixed: it runs to the end of the line |
| TitleRule.Heading | backend/sop-api.js:20 | `content.match(/^#\s+(.+)$/m)` reduced to group 1: when present, a non-empty piece of one line of the content; what it is exactly is stated by `HeadingOfFirstMatch`, `HeadingIsFirstMatch` and `NoHeadingIffNoMatch` |
| TitleRule.Title | backend/sop-api.js:21 | `titleMatch ? titleMatch[1] : file.replace('.md', '')`: the capture of the leftmost, greediest match; when the pattern matches nowhere, the file name with its first `.md` removed |
| TitleRule.HeadingOfEveryFirstMatch | backend/sop-api.js:20 | for every match the engine could report, the heading is its capture group 1 |
| TitleRule.HeadingOfFirstMatch | backend/sop-api.js:20-21 | when a match is leftmost and greediest, the heading is exactly its capture group 1 |
| TitleRule.HeadingIsFirstMatch | backend/sop-api.js:20-21 | every heading found is the capture of the leftmost, greediest match |
| TitleRule.NoHeadingIffNoMatch | backend/sop-api.js:20-21 | `match` returns null exactly when the pattern matches at no position (both directions) |
| TitleRule.DoubleHashIsNoMatch | backend/sop-api.js:53 | a line starting `##` never matches at its own start |
| TitleRule.LeadingHeadingTitle | backend/sop-api.js:53-54 | content that opens with `#`, a whitespace run (possibly across line breaks) and a non-blank line `t` has title `t` |
| TitleRule.BacktrackedTitle | backend/sop-api.js:53-54 | `\s+` gives back a character when the run reaches the line end: `"#  "` has the title `" "` |
| TitleRule.BlankHeadingFallsBack | backend/sop-api.js:53-54 | `"# \n"` matches nowhere, so the title of `a.md` is `a` |
| TitleRule.IndexOf | backend/sop-api.js:21 | `indexOf`: the first occurrence at or after the start, with no earlier occurrence; `None` exactly when nothing occurs |
| TitleRule.RemoveFirst | backend/sop-api.js:21 | `replace` with a string pattern and an empty replacement: unchanged when the pattern does not occur; otherwise shorter by the pattern's length, and putting the pattern back at its first occurrence restores the name |
| TitleRule.RemoveMdSuffix | backend/sop-api.js:54 | a name `stem + ".md"` without any other `.md` loses exactly its suffix; no occurrence can straddle the stem and the suffix |
| TitleRule.RemovesFirstOccurrenceOnly | backend/sop-api.js:54 | only the first `.md` is removed: `a.md.md` becomes `a.md` |
| TitleRule.DeployGuideTitle | backend/sop-api.js:53-54 | the content `# Deploy Guide\nSteps...` of `deploy.md` has the title `Deploy Guide` |
| SopApi.EndsWithMd | backend/sop-api.js:17 | `f.endsWith('.md')`: holds exactly when the name is some string followed by `.md` |
| SopApi.MdNames | backend/sop-api.js:17 | the `.md` filter keeps exactly the listed names that end in `.md` and no others |
| SopApi.MdNamesAppend | backend/sop-api.js:16-17 | the filter keeps relative order: filtering a concatenation is the concatenation of the filtered parts |
| SopApi.MdNamesDistinct | backend/sop-api.js:15-17 | a listing without repeats gives a filtered list without repeats |
| SopApi.ListEntries | backend/sop-api.js:18-22 | the `.map` over the filtered names: one entry per listed `.md` name, in the listing's order, with `name == file` and the title by the title rule on the stored content; every listed `.md` name has an entry |
| SopApi.Directory.Exists | backend/sop-api.js:46 | `fs.existsSync(path.join(SOP_DIR, name))`: the empty name is the directory itself and exists; any other name exists exactly when it is a file of the directory (the same check at lines 91 and 120) |
| SopApi.Directory.List | backend/sop-api.js:13-26 | status 200 with one entry per `.md` file of the directory, and no others. Entries follow the listing's order and are pairwise distinct. `name == file`, and the title is the title rule applied to the stored content |
| SopApi.Directory.Content | backend/sop-api.js:34-57 | an absent or empty name gives 400 "缺少文件名" whatever the store holds; an unknown name gives 404 "文件不存在"; otherwise 200 with the stored content and its title by the title rule |
| SopApi.Directory.Save | backend/sop-api.js:65-74 | the entry for the name becomes the content, whether or not it existed; every other entry is unchanged; 200 |
| SopApi.Directory.Create | backend/sop-api.js:83-99 | an existing name gives 400 "文件已存在" and leaves the store unchanged; a new name is added with the content, nothing else changes, 200 |
| SopApi.Directory.Delete | backend/sop-api.js:108-127 | an absent or empty name gives 400 with the store unchanged; a stored name is removed with 200; an unknown name gives 404 with the store unchanged |
| SopApi.SaveThenRead | backend/sop-api.js:70-74 | a read after a save returns 200 with the saved content and its title; no other file changes |
| SopApi.CreateTwice | backend/sop-api.js:91-99 | creating a new name twice: the first succeeds, the second gives 400 and the first content stays |
| SopApi.DeleteThenRead | backend/sop-api.js:119-127 | after deleting a stored name, a read of it and a second delete both give 404 |
| SopApi.ListThenRead | backend/sop-api.js:13-62 | listing and reading leave the directory unchanged |

## Left out

- HTTP plumbing is not modelled: URL parsing, `searchParams.get`, `writeHead`, headers and `JSON.stringify`. Requests are optional strings and responses are a datatype.
- Reading the request body is not modelled: the chunks (`body += chunk`) and `JSON.parse`. The parsed `file` and `content` are inputs, and both are assumed to be strings.
- Save and Create do their work inside the request's `'end'` callback, outside the `try` (lines 69-75 and 87-100), so the `catch` blocks at lines 76-79 and 101-104 never send anything. Whatever throws in that callback gets no response at all, and the model claims none for it: a malformed body, a missing `file` field, a missing `content` field, and a failing `fs.writeFileSync` (disk full, a permission error, EISDIR) at lines 72 and 97. The exception is Create on an existing name: it answers 400 "文件已存在" at lines 91-94 before it uses `content`, so it answers even when `content` is missing. The model's `content` is always a string, so it does not show that case.
- The 500 responses that carry `error.message` come only from List (lines 15 and 19), Content (line 52) and Delete (line 121), and they are not modelled. The failures behind them are a missing directory, a permission error, EISDIR for a subdirectory, or a listed file that vanished before it was read. They would need a model of arbitrary operating-system failures.
- The filesystem itself is not modelled: `path.join` normalisation, path traversal (`..`, slashes in names), the order `readdirSync` returns, and UTF-8 decoding. A name is a map key and a content is a string. The directory is assumed to hold regular files only. For a subdirectory's name the source behaves differently: Create answers 400 "文件已存在" because `existsSync` holds (line 91), and Content and Delete answer 500 with EISDIR (lines 52 and 121).
- SopApi.Directory.Save: requires a non-empty name. With the empty name, the source writes to the directory itself, which throws EISDIR outside the `try`, so the source defines no response.
- SopApi.Directory.List: requires the listing to be a duplicate-free enumeration of the directory's names, which is what `readdirSync` returns. The order is an input.
- Concurrency is not modelled: in particular the race between Create's existence check and its write. The model is strictly sequential.
- JavaScript strings are UTF-16 code units, while Dafny's `char` is a Unicode scalar value. Lone surrogates cannot be represented. A character outside the Basic Multilingual Plane is one `char` here but two code units in the source. This does not change which text is captured, because none of these characters is whitespace or a line terminator.
