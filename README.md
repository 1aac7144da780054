# Content index and chat proxy of the documentation chatbot

This Dafny project models the two small pieces of server-side logic behind
the chatbot of a static MkDocs documentation site:

- the MkDocs post-build hook (`hooks/generate_content.py`). It walks the
  Markdown sources and writes `content.json`, a list of `{title, url, content}`
  records that the chat widget loads as grounding text;
- the request translation in the chat proxy (`backend/chat_server.py`). The
  proxy receives `{history, message, system_instruction}` from the widget and
  forwards it to the Gemini model.

Modules:

- `Wrappers` (`wrappers.dfy`): `Option` and `Result`.
- `PyStr` (`py_str.dfy`): the Python `str` and `pathlib` operations the hook
  uses, as functions on `seq<char>`. These are `replace`, `strip`,
  `rstrip('/')`, `split('\n')`, `title()`, `startswith`/`endswith`, `rfind`
  and `Path.stem`. Each is characterised by its own `ensures` or by lemmas. The lemmas cover
  replace-all, leftmost-first replacement, the split/join round trips, and
  idempotence of `strip` and `title`. `startswith` and `endswith` are plain
  definitions.
- `ContentHook` (`content_hook.dfy`): the hook without its I/O.
  - Each Markdown file is a `Source`: the parts of its path relative to the
    docs directory, and the text `f.read()` returned. The text is `None` when
    opening or reading raised.
  - The hook's result is the sequence of `Entry` records that would be dumped
    to `content.json`.
  - The per-file URL rule is a function (`UrlPath`, `FullUrl`).
  - The title scan is a method with a loop (`ExtractTitle`), proved against
    `TitleOf`.
  - The accumulation loop is a method (`OnPostBuild`), proved against
    `Collect`.
- `ChatServer` (`chat_server.dfy`): `chat_endpoint` up to the model call.
  - It checks the API key.
  - It maps the history with a loop (`TranslateHistory`).
  - It composes the final message (`FinalMessage`).

Behaviour the model keeps on purpose:

- `.replace('.md', '/')` replaces every `.md`, not only the suffix. For
  example, `notes.md/intro.md` becomes `/notes//intro/`.
- The `index/` rule strips any path ending in `index/`, so `reindex.md`
  becomes `/re`.
- The second rule (`url_path == '/index/'`, lines 50-52) is reachable. The
  comment above it expects it to catch the root `index.md`, but line 48 has
  already turned that into `/`. The rule fires exactly when the raw path is
  `/index/index/`, for example for `index/index.md` (or a root file named
  `index.mdindex.md`). It sends that page to `/`, the same URL as the root
  `index.md`. `SecondIndexRuleFires` proves the exact condition and
  `UrlPathOfIndexPage` gives the instance.
- The hook reads `site_url` inside the per-file `try`. A `site_url` that is
  `None` rather than a string makes `.rstrip` raise, so every file is
  skipped. An absent key gives `''`, and callers of the model pass
  `Some("")` for it.
- The API key and the system instruction are tested for Python truthiness:
  `None` and `""` both count as absent.

## Model

| member | source | states |
|---|---|---|
| PyStr.ReplaceRemovesAll | hooks/generate_content.py:44 | when the replacement is non-empty and shares no character with the pattern, no occurrence of the pattern is left: every `.md` was replaced |
| PyStr.ReplaceLeftmost | hooks/generate_content.py:44 | the leftmost occurrence is replaced, the text before it is copied, and the scan resumes after it |
| PyStr.ReplaceFirst | hooks/generate_content.py:44 | the first occurrence is replaced when the text before it lacks the pattern's first character |
| PyStr.ReplaceBoth | hooks/generate_content.py:44 | two occurrences, each preceded by text lacking the pattern's first character, are both replaced |
| PyStr.ReplaceAbsent | hooks/generate_content.py:44 | a string without the pattern is returned unchanged |
| PyStr.ReplaceChars | hooks/generate_content.py:44 | every character of a replaced string comes from the input or from the replacement |
| PyStr.ReplaceChar | hooks/generate_content.py:44 | replacing one character by another (`\` by `/`, `-` or `_` by a space) maps each character and keeps the length |
| PyStr.ReplaceCharAbsent | hooks/generate_content.py:44 | replacing a character that does not occur changes nothing |
| PyStr.RStripChar | hooks/generate_content.py:39 | `rstrip('/')` keeps a prefix, drops only `/` characters, and the result does not end in `/` |
| PyStr.LStripShape | hooks/generate_content.py:63 | `lstrip()` keeps a suffix, drops only whitespace, and the result does not start with whitespace |
| PyStr.RStripShape | hooks/generate_content.py:63 | `rstrip()` keeps a prefix, drops only whitespace, and the result does not end with whitespace |
| PyStr.StripShape | hooks/generate_content.py:63-64 | `strip()` keeps the infix between leading and trailing whitespace, and the result neither starts nor ends with whitespace |
| PyStr.StripIdempotent | hooks/generate_content.py:64 | stripping a stripped string changes nothing |
| PyStr.Split | hooks/generate_content.py:61 | `split('\n')` gives at least one piece, and no piece contains the separator |
| PyStr.JoinSplit | hooks/generate_content.py:61 | joining the pieces of a split with the separator gives back the text |
| PyStr.SplitJoin | hooks/generate_content.py:61 | splitting a join of a non-empty list of separator-free pieces gives back the pieces |
| PyStr.Title | hooks/generate_content.py:59 | `title()` keeps the length, upper-cases a letter that starts a word and lower-cases the others |
| PyStr.TitleFrom | hooks/generate_content.py:59 | the title-casing scan gives each character its case from whether the previous character is a letter |
| PyStr.TitleIdempotent | hooks/generate_content.py:59 | title-casing a title-cased string changes nothing |
| PyStr.LastIndexOf | hooks/generate_content.py:59 | `rfind` returns the index of the last occurrence, or -1 when there is none |
| PyStr.Stem | hooks/generate_content.py:59 | `Path.stem` is a prefix of the name; when shorter, it is followed by a `.` that starts the last suffix of at least one character |
| PyStr.StemKeepsName | hooks/generate_content.py:59 | the stem is the whole name if and only if the name has no suffix: it is empty, has no `.` after its first character, or ends in `.`; otherwise the last suffix is removed |
| PyStr.StemOfMarkdown | hooks/generate_content.py:59 | the stem of `base.md` is `base` for a non-empty `base` |
| ContentHook.RawUrlPathShape | hooks/generate_content.py:44 | the raw path starts with `/` and contains no backslash and no `.md` |
| ContentHook.UrlPathShape | hooks/generate_content.py:44-52 | every URL path starts with `/` and contains no backslash and no `.md`, after the `index/` rules too |
| ContentHook.UrlPathIndexRule | hooks/generate_content.py:47-52 | a raw path ending in `index/` loses exactly those six characters (except `/index/index/`, which gives `/`); any other raw path is kept |
| ContentHook.SecondIndexRuleFires | hooks/generate_content.py:47-52 | the `== '/index/'` rule changes the path if and only if the raw path is `/index/index/` |
| ContentHook.RawUrlPathOfPage | hooks/generate_content.py:44 | a path `base.md`, where `base` has no `.` and no backslash, gives `/base/` |
| ContentHook.EveryMdReplaced | hooks/generate_content.py:44 | a `.md` that ends a directory name is replaced as well as the file's: `dir.md/page.md` gives `/dir//page/` |
| ContentHook.UrlPathOfPage | hooks/generate_content.py:44-52 | a page `base.md` (no backslash, no other `.`, name not ending in `index`) gets `/base/`, e.g. `java/basics.md` gives `/java/basics/` |
| ContentHook.UrlPathOfIndexPage | hooks/generate_content.py:44-52 | a page `dir` + `index.md`, where `dir` has no `.` and no backslash, gets `/` + `dir`: the root `index.md` gives `/`, `java/index.md` gives `/java/`, `reindex.md` gives `/re`; only `index/index.md` goes on to `/` |
| ContentHook.UrlPathIgnoresSeparatorStyle | hooks/generate_content.py:44 | a path written with backslashes gets the same URL path as with forward slashes |
| ContentHook.FullUrlJunction | hooks/generate_content.py:39-55 | the URL is the site URL without its trailing `/`s followed by the path; only `/`s were dropped; with a non-empty base there is no `//` at the junction |
| ContentHook.FullUrlTrailingSlash | hooks/generate_content.py:39-55 | an extra trailing `/` on the site URL makes no difference, and an empty site URL gives the path alone |
| ContentHook.FirstHeadingFrom | hooks/generate_content.py:62-65 | finds the first line whose stripped form starts with `# `, or reports that there is none |
| ContentHook.ExtractTitle | hooks/generate_content.py:59-65 | the scan that starts from the fallback title and stops at the first `# ` line returns `TitleOf(text, stem)` |
| ContentHook.HeadingTextShape | hooks/generate_content.py:63-64 | a heading line strips to `# ` followed by the rest, and its title text is that rest stripped, with no whitespace at either end |
| ContentHook.TitleFromHeading | hooks/generate_content.py:61-65 | with a first `# ` heading on line `i` and none before it, the title is that line's heading text |
| ContentHook.TitleWithoutHeading | hooks/generate_content.py:59-65 | without any `# ` line, the title is the fallback built from the stem |
| ContentHook.DeeperHeadingIsNoTitle | hooks/generate_content.py:63 | a line whose stripped form starts with `##` never qualifies |
| ContentHook.FallbackTitleShape | hooks/generate_content.py:59 | the fallback title has the stem's length, a space for each `-` and `_`, and title case elsewhere, with `-` and `_` starting words |
| ContentHook.Kept | hooks/generate_content.py:32-77 | the indexes of the files whose `try` block succeeds, strictly increasing, and all of them |
| ContentHook.CollectMatchesKept | hooks/generate_content.py:29-77 | the index has one record per file that succeeds, in file order; each record's content is that file's text, unchanged |
| ContentHook.CollectAppend | hooks/generate_content.py:32-77 | the index of a concatenation of file lists is the concatenation of their indexes |
| ContentHook.FailedFileSkipped | hooks/generate_content.py:33-77 | a file that fails is skipped and leaves the records of the other files as they are |
| ContentHook.NullSiteUrlGivesEmptyIndex | hooks/generate_content.py:39 | a `site_url` of `None` makes every file fail, so the index is empty |
| ContentHook.OnPostBuild | hooks/generate_content.py:29-77 | the accumulation loop returns `Collect(files, site_url, sep)` |
| ChatServer.ModelRole | backend/chat_server.py:62 | the mapped role is `user` or `model`, and it is `user` exactly when the request role is `user` |
| ChatServer.TranslateHistory | backend/chat_server.py:60-66 | same length and order as the request history; each role is mapped; each message's part texts are kept in order and number |
| ChatServer.HistoryRoundTrip | backend/chat_server.py:60-66 | reading the translated history back gives the request history if and only if every role already was `user` or `model` |
| ChatServer.FinalMessage | backend/chat_server.py:77-80 | the message sent ends with the user's message; it is that message alone when the instruction is absent or empty, and otherwise `instruction + "\n\nUser Question: " + message` |
| ChatServer.FinalMessageSplits | backend/chat_server.py:80 | with an instruction, the message sent splits back into the instruction with its separator and the user's message |
| ChatServer.ChatEndpoint | backend/chat_server.py:49-80 | fails with HTTP 500 and the fixed detail exactly when no API key is configured; otherwise returns the translated history and the final message |

## Left out

- File system work in the hook is not modelled: `rglob` traversal and its sort, `open`/`read`, `json.dump` to `content.json`, and all `print` logging (hooks/generate_content.py:21-27, 32-36, 74, 77, 80-92). The files arrive already in the order `sorted(...)` gives. Python's universal-newline translation on reading is part of the text the model receives. A directory whose name ends in `.md` is matched by `rglob` and then fails to open; it is modelled as a `Source` whose text is `None`.
- OnPostBuild: the only per-file failures modelled are a failed read and a `site_url` that is not a string. These are the only failures that drop a record. The `print` at the end of the `try` block (line 74) runs after the `append`, so an error it raises loses no record.
- PyStr.Title: ASCII approximation of Python's `str.title()`. Only `A`-`Z` and `a`-`z` are cased letters, and any other character is left unchanged and starts a new word. Non-ASCII letters are not case-mapped.
- PyStr.Stem: follows the `pathlib` rule of Python 3.8-3.12 (last `.` strictly inside the name and not its last character).
- The chat proxy's FastAPI setup, CORS middleware and environment loading are not modelled (backend/chat_server.py:9-30). The API key is a parameter.
- The health route is not modelled (backend/chat_server.py:44-46).
- The Gemini SDK calls are not modelled: model construction, `start_chat`, `send_message` and `response.text` (backend/chat_server.py:55, 70, 82-84). `ChatEndpoint` returns what would be passed to them.
- The generic exception-to-500 wrapper is not modelled (backend/chat_server.py:86-88), because only the SDK can raise inside it.
- Validation of the request body by pydantic is not modelled; requests are well-typed values.
- The embeddable JavaScript chat widget (DOM, session storage, fetch) is not part of this model.
