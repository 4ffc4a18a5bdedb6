# DataPower-to-Target conversion: a verified model

This project models the decision logic of a one-shot conversion tool. The tool reads a
legacy DataPower export (`export.xml` and the `local:///` files bundled next to it). It
collects the Target framework's files as context and builds a prompt for the Tachyon
chat-completions service. It pulls the JSON object out of the model's answer and writes
the files that answer proposes into a repository. The model keeps only the pure logic and
its state changes. The parsed XML tree, the directory walk, the file system, the HTTP
reply and the decoded JSON are inputs.

Modules, in dependency order:

- `Wrappers`: `Option` and `Result`.
- `Text`: Python's `str.strip`, `startswith`/`endswith` and `rstrip("/")`, decimal
  digits, `int()` on a sign and ASCII digits, and lexicographic order. `sorted()` on
  strings uses that order.
- `Paths`:
  - paths are sequences of segments;
  - `resolve()` is lexical normalisation of `.` and `..`, and an absolute relative path
    replaces the base;
  - "is the root or has it among its parents" is the prefix relation.
- `Bundle`: `_find_mpgw_names` (stable de-duplication of gateway names) and the
  local-file loop of `_parse_export_bundle`. The XML tree is the sequence of its
  elements in document order, each a tag with an attribute map. The disk is a map from
  path to text.
- `Framework`: `_read_target_framework`. The directory walk is a sequence of entries
  in sorted order; a file that could not be read has no text.
- `Prompt`: the snippet window around the first gateway tag and the sorted file lists
  of `_build_prompt`.
- `Response`: the extraction step of `_parse_llm_json`.
- `Writer`: `_safe_write_files`.
  - A `FileSystem` class holds a file map and a directory set, and its `SafeWriteFiles`
    loop is proved equal to the specification function `Run`.
  - `Run` is an instance of a generic stop-at-first-exception batch, `Batch`.
  - Printed lines are a log of `Action`s. An exception is a `Rejection` carrying the
    index of the entry that raised.
- `Tachyon`: `TachyonConfig.from_env` and the request and reply handling of
  `TachyonClient.chat`.

Behaviour of the code worth knowing, which the model reproduces:

- In `_parse_llm_json` the regular expression `\{[\s\S]*\}$` matches from the first
  `{`, so the candidate is the suffix from the first `{`, not the last `{...}` block
  (`Response.ExtractJson`).
- `from_env` parses `TACHYON_TIMEOUT_SECS` before it checks the required variables.
  A malformed timeout therefore raises a `ValueError` even when variables are missing
  (`Tachyon.FromEnvBadTimeout`).
- The tag test `tag.endswith("file")` also accepts tags such as `profile`.
- A required `TACHYON_BASE_URL` of only slashes passes the emptiness check and becomes
  the empty base URL.
- An entry without `content` writes an empty file.

## Model

| member | source | states |
|---|---|---|
| Text.Strip | tools/convert.py:199 | the result is the input minus its leading and trailing Python white space: a contiguous slice starting after the leading run, with nothing but white space after it, and empty exactly when the input is all white space |
| Text.StripIdempotent | tools/convert.py:199 | stripping twice is stripping once |
| Text.RStripChar | tools/tachyon_client.py:40 | `rstrip("/")` yields a prefix of the input that does not end with `/`, and everything it drops is `/` |
| Text.ParseIntOfNatToString | tools/tachyon_client.py:29 | the decimal rendering of every natural number parses back to that number |
| Paths.SplitJoin | tools/convert.py:219 | splitting a path text at `/` loses nothing: joining the segments with `/` gives the text back |
| Paths.Resolve | tools/convert.py:219 | resolving a relative path against a canonical root yields a canonical path (no empty, `.` or `..` segments) |
| Paths.ResolveWithoutParentStaysWithin | tools/convert.py:219-221 | a relative path with no `..` segment always resolves to the root or under it |
| Bundle.RawNamesSpec | tools/convert.py:30-32 | a name is collected exactly when some element whose tag ends with `MultiProtocolGateway` carries it as its `name` attribute |
| Bundle.UniqueSameElements | tools/convert.py:34-39 | the de-duplicated list holds exactly the values of the raw list |
| Bundle.UniqueNoDuplicates | tools/convert.py:34-39 | the de-duplicated list has no repeated value |
| Bundle.UniqueFirstOccurrenceOrder | tools/convert.py:34-39 | the de-duplicated list keeps the values in the order of their first occurrence in the raw list |
| Bundle.FindGatewayNames | tools/convert.py:28-40 | the two loops (append gateway names, then keep those not yet seen) return the stable de-duplication of the gateway names |
| Bundle.LocalFilesKeys | tools/convert.py:52-63 | a name has an entry exactly when some element's tag ends with `file`, its name starts with `local:///`, its location is empty or `local`, and its src is non-empty |
| Bundle.LocalFilesLastWins | tools/convert.py:65-69 | the entry for a name is what the last element recording that name bundled |
| Bundle.BundledTextIsFileOrPlaceholder | tools/convert.py:65-69 | the recorded text is the source file's text when it exists, and otherwise the `/* MISSING FILE: expected at <path> */` placeholder; a missing file is never an error |
| Bundle.CollectLocalFiles | tools/convert.py:51-69 | the loop with its `continue`s builds exactly the local-files map of the filter, and every key starts with `local:///` |
| Bundle.ParseExportBundle | tools/convert.py:43-78 | the bundle carries the export's path and text, the local-files map of the filter over the export's directory, and the de-duplicated gateway names |
| Framework.StoredTextBounded | tools/convert.py:99-102 | a file text of at most 20000 characters is stored verbatim, and a longer one is replaced by the placeholder stating its size |
| Framework.CollectedKeys | tools/convert.py:91-100 | a relative path has an entry exactly when the walk met a readable file at that path |
| Framework.CollectedBounded | tools/convert.py:99-102 | every stored value is at most 20000 characters or is the size placeholder of a longer text |
| Framework.CollectedLastWins | tools/convert.py:99-102 | the entry for a path is the size-limited text of the last readable file at that path |
| Framework.ReadTargetFramework | tools/convert.py:81-109 | with no framework directory the context has exactly the one key `_note` (the not-found note); otherwise it is the walk's collected map, plus the top-level `MPGW_GWS_Framework.xml` unabridged when present |
| Prompt.FindGatewayTag | tools/convert.py:120 | the search returns the first position at or after its start where the gateway-tag pattern matches, or none when it matches nowhere |
| Prompt.SnippetWindow | tools/convert.py:119-126 | 0 ≤ start ≤ end ≤ length; around the first tag m the window starts at most 800 before m and ends at most 5000 after it, each bound cut only by the ends of the text; with no tag it is the first min(length, 6000) characters |
| Prompt.SnippetBounds | tools/convert.py:119-126 | the snippet never exceeds 6000 characters and, when a tag was found, contains the tag's opening `<MultiProtocolGateway` |
| Prompt.SortedKeys | tools/convert.py:115 | `sorted()` of a set of keys is sorted, has as many elements as the set and holds exactly its elements |
| Prompt.SortedKeysNoDuplicates | tools/convert.py:115 | the sorted key list has no repeated key |
| Prompt.BuildPrompt | tools/convert.py:115-128 | the snippet is at most 6000 characters; the local file list is the sorted local-file names; the framework file list is the sorted context keys that do not start with `_` |
| Prompt.MissingFrameworkListsNothing | tools/convert.py:87 | a context that holds only the `_note` lists no framework files |
| Response.ExtractKeepsObjectText | tools/convert.py:199-202 | a stripped text starting with `{` is passed on unchanged |
| Response.ExtractTrailingObject | tools/convert.py:202-205 | otherwise, a stripped text that ends with `}` and contains `{` yields its suffix from the first `{`, which starts with `{` and ends with `}` |
| Response.ExtractOtherwiseStripped | tools/convert.py:202-205 | any other text is passed on stripped |
| Response.ExtractHasNoSurroundingSpace | tools/convert.py:199-205 | the candidate never begins or ends with white space |
| Response.ExtractIdempotent | tools/convert.py:199-205 | extracting from the candidate gives the candidate again |
| Writer.StepRejects | tools/convert.py:212-224 | an empty or non-string path, a non-string content, a destination outside the root, and an existing destination without force each raise their own error |
| Writer.StepAccepted | tools/convert.py:219-232 | an accepted entry's destination lies within the root and did not exist unless forced; a dry run leaves the disk as it was and reports a would-write line with the content's length; otherwise only the destination's text changes, to exactly the content, and only its ancestors become directories |
| Writer.StepPreservesTree | tools/convert.py:230-231 | `mkdir(parents=True)` then `write_text` keeps the file system a tree: every ancestor of a file or directory is a directory, and no path is both |
| Writer.RunPreservesTree | tools/convert.py:211-232 | the whole batch keeps the file system a tree |
| Writer.DryRunChangesNothing | tools/convert.py:226-228 | in a dry run the file system ends exactly as it began, whatever the entries |
| Writer.RunStaysWithinRoot | tools/convert.py:219-221 | no file outside the repository root is created, changed or removed |
| Writer.RunLog | tools/convert.py:211-232 | the report has one line per entry handled before the failure (or per entry), in order, each naming its entry's path, as would-write lines in a dry run and write lines otherwise |
| Writer.RunFailureKeepsEarlierWrites | tools/convert.py:211-232 | when entry i raises, the disk and report are exactly those the entries before it produced (no roll-back), and entry i itself raised on that disk |
| Writer.ExistingDestinationStops | tools/convert.py:223-224 | wherever it stands, an entry whose destination exists when reached stops the batch without force, with the disk as the earlier entries left it |
| Writer.TraversalRejected | tools/convert.py:219-221 | `../../c/p` against a root `/a/b` (with c ≠ a) resolves to `/c/p` and is refused as outside the repository before anything is written; `../../etc/passwd` is an instance |
| Writer.FileSystem.WriteEntry | tools/convert.py:212-232 | one iteration of the loop on the file system object has exactly the effect and outcome of the step function, and keeps the file system a tree |
| Writer.FileSystem.SafeWriteFiles | tools/convert.py:210-232 | the loop leaves the file system, the report and the raised error (with the entry's index) exactly as the batch specification `Run` gives them from the initial state |
| Tachyon.MissingVars | tools/tachyon_client.py:31-35 | exactly the required variables whose trimmed value is empty are listed, in the fixed order base URL, API key, model; the list is empty exactly when all three are set |
| Tachyon.FromEnv | tools/tachyon_client.py:24-45 | a returned configuration has a base URL not ending with `/`, a chat path starting with `/`, and a non-empty API key and model |
| Tachyon.FromEnvRaisesIffMissing | tools/tachyon_client.py:25-37 | once the timeout parses, from_env raises exactly when one of the three required variables is empty after trimming, and the error names exactly those |
| Tachyon.FromEnvBadTimeout | tools/tachyon_client.py:29 | a timeout `int()` refuses raises before the required variables are looked at |
| Tachyon.FromEnvNormalises | tools/tachyon_client.py:39-45 | the base URL is the trimmed variable minus trailing slashes; key and model are the trimmed variables; an already `/`-prefixed path is kept and any other gets one `/` in front; the timeout is the parsed text |
| Tachyon.FromEnvDefaults | tools/tachyon_client.py:28-29 | with the path and timeout variables unset, the path is `/v1/chat/completions` and the timeout 60 |
| Tachyon.ChatRequest | tools/tachyon_client.py:69-87 | the URL is the chat URL; the headers are the Bearer key and the JSON content type; the body has model, messages, temperature and max_tokens, and every extra_body key overrides them |
| Tachyon.ChatUrlJoin | tools/tachyon_client.py:39-69 | for a configuration as from_env returns it, the URL is the base URL followed by a `/`, and the base URL's last character is not a `/`, so the join adds no slash of its own (a chat path that itself starts with `//` keeps both) |
| Tachyon.ContentOfChatCompletion | tools/tachyon_client.py:94-96 | the extraction returns exactly the first choice's message content, whatever else the reply holds |
| Tachyon.ContentOnlyFromChatCompletion | tools/tachyon_client.py:95-98 | a content is found only in a reply of the `choices[0].message.content` shape |
| Tachyon.HandleReply | tools/tachyon_client.py:89-98 | a status of 400 or more raises the HTTP error carrying exactly the first 2000 characters of the text (all of it when shorter); otherwise an undecodable body fails to decode, a reply of the right shape yields its content, and any other raises the shape error carrying the data |

## Left out

- The XML parser, the JSON decoder and encoder, and the HTTP session and POST are given as
  inputs: the element sequence, the decoded JSON value and the reply (status, text,
  decoded body).
- `_read_text`'s UTF-8 decoding with replacement characters: file texts are strings.
- The regular-expression engines. The model states each expression's effect: the first
  position where the gateway-tag pattern matches, and the suffix from the first `{` when
  the text ends with `}`.
- `rglob`, `is_dir` and the read exceptions of the framework walk. The walk is a given
  sequence of entries in sorted order; an unreadable file is an entry without text.
- Symbolic links in `Path.resolve()`: resolution is lexical.
- `pathlib` collapses repeated separators, drops `.` segments and drops a trailing
  separator when it renders a path. `Paths.JoinText` renders `export_dir / src` by
  plain joining, so the missing-file placeholder can differ for a src with `//`, a `.`
  segment or a trailing `/`.
- Bundle.BundledText, Bundle.ParseExportBundle: the disk lookup that stands for
  `src_path.exists()` and `_read_text` never fails. In Python a src naming a directory
  raises `IsADirectoryError` and an unreadable file raises `PermissionError`, both
  uncaught. `exists()` also follows symbolic links and fails on a path such as
  `missing/../a.xsl` when `missing` is absent; the model normalises `..` lexically.
- Framework.ReadTargetFramework: the top-level `MPGW_GWS_Framework.xml` is read
  outside any `try`. A top file that exists but cannot be read raises in Python; the
  `Option` input cannot express it.
- `mkdir` and `write_text` failures other than a file in the parent chain and a
  directory at the destination (permissions, disk full) are not modelled.
- Printing: the `[dry-run]` and `[write]` lines are the `Action` log. Exceptions are
  error values carrying their data (the missing variables, the status and text, the
  entry's path); their message texts are not modelled.
- The prose of the system and user prompts in `_build_prompt`. `BuildPrompt` keeps only
  the computed parts: the snippet, the lists and the gateway line.
- `main`: argument parsing, the debug dump, stderr messages and exit codes.
- Tachyon.FromEnv: `int()` also accepts underscores between digits and non-ASCII decimal
  digits. `Text.ParseInt` accepts only an optional sign followed by ASCII digits.
- Temperature is a real. Python's float rounding and its JSON rendering are not modelled.
- `json.dumps` of the body and `resp.json()` are not modelled. A body that fails to
  decode is the `NotJson` error, which is not a `TachyonError`.
- An entry that is not a JSON object fails with `NoFields` (Python raises
  `AttributeError` on `.get`). Members other than `path` and `content` are ignored.
