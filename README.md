# jenkins-jobcfg: a Dafny model of its self-contained logic

`jenkins-jobcfg` is a Python 2 command-line tool for Jenkins jobs. It fetches
a job's XML configuration as human-editable YAML, pushes edited YAML back as
XML, and keeps the server credentials in a local YAML store. This project
models the parts of the script that are the tool's own logic rather than
calls into `requests`, `xmltodict` or PyYAML, and proves properties of them:

- **Credential resolution** (`jenkins_config`, `jenkins_configs`,
  `jenkins_check_config`), module `Credentials` over `OrderedMap`. The store
  file is a list of single-key mappings. It is flattened into an ordered map
  with `OrderedDict` semantics. The effective identifier is the given one,
  else the first key, else `"default"`. Its entry is checked against the
  server. On failure the operator is prompted, the new values are checked
  again, and on success the entry is upserted in place (class `Store`) and the
  store is serialised back to a list of single-key mappings for the writer.
- **Job file names** (the `push`/`create` loops and the name `fetch` writes),
  module `JobFiles`. The name is read with the pattern `^config-(.*)\.[^.]*$`.
  Non-matching files are skipped. Only `.yaml` files are converted.
- **The multiline scalar presenter** (`str_presenter`), module `Presenter`,
  with Python 2.7's `unicode.splitlines` written out.
- **The crumb header and the request headers** (`jenkins_crumb`, the header
  handling of `jenkins_request`), module `Crumb`, with `str.split` written out.
- **Password masking** for the `config` command, module `Masking`.

Oracles and parameters. The server, as one request finds it, is a function
from the request URL, the user name and the stored password to an HTTP status,
or to `None` when the request raises. The first and the second check are two
requests and get two such functions, so a check that fails while the network
is down can be followed by one that succeeds. Decoding the stored base64 password is part of that function.
The base64 encoder is a function parameter. The prompt answers and the
environment variables `JENKINS_URL` and `USER` are plain values. A `None`
answer means input ended at that prompt. Persistence is the list of mappings
handed to the writer (`written`).

In these details the model follows what the code does:

- Multiline text only loses its `\r` characters. Trailing whitespace is kept
  and no other line boundary is rewritten.
- A repeated identifier in the store file is accepted. The later entry's
  value wins and the key keeps its first position.
- The file-name pattern also rejects names whose job part holds a newline,
  because `.` in `(.*)` does not match one. A newline after the last dot is
  accepted.
- A store whose first key is the empty string falls back to `"default"`,
  because the empty string is false in the `or` chain.

## Model

| member | source | states |
|---|---|---|
| `OrderedMap.Get` | jenkins-jobcfg.py:129 | absent exactly when no pair has the key; with unique keys, the value paired with the key |
| `OrderedMap.Put` | jenkins-jobcfg.py:158-159 | an existing key keeps its position and takes the new value, every other pair unchanged; a new key is appended last; unique keys stay unique |
| `OrderedMap.PutGet` | jenkins-jobcfg.py:158-159 | after the upsert the key reads back as the new value and every other key reads as before |
| `OrderedMap.FromPairs` | jenkins-jobcfg.py:121-122 | `OrderedDict(pairs)`, a left fold of the upsert; its keys are unique, and `FromPairsGet`, `FromPairsKeys`, `FromPairsOrder` and `FromPairsUnique` specify it |
| `OrderedMap.Concat` | jenkins-jobcfg.py:121-122 | `sum(..., [])` over the items' pair lists; `ConcatSerialise` specifies it against `Serialise` |
| `OrderedMap.Flatten` | jenkins-jobcfg.py:121-122 | the store file's list of mappings as one ordered map with unique keys; `FlattenSerialise` and `FirstKeyFirst` specify it |
| `OrderedMap.FromPairsGet` | jenkins-jobcfg.py:121-122 | each key of the flattened map holds the value of its last occurrence in the input pairs |
| `OrderedMap.LastValueIsLast` | jenkins-jobcfg.py:121-122 | that value belongs to a pair with the key that no later pair overrides |
| `OrderedMap.FromPairsKeys` | jenkins-jobcfg.py:121-122 | the flattened map has exactly the keys that occur in the input |
| `OrderedMap.FromPairsOrder` | jenkins-jobcfg.py:119-122 | keys appear in the order of their first occurrence in the input |
| `OrderedMap.FirstKeyFirst` | jenkins-jobcfg.py:119-122 | the first key of the map is the key of the first pair in the file |
| `OrderedMap.FromPairsUnique` | jenkins-jobcfg.py:121-122 | a pair list that already has unique keys flattens to itself |
| `OrderedMap.Serialise` | jenkins-jobcfg.py:161 | `map(lambda (k, v): {k: v}, items())`, one single-key mapping per entry; `FlattenSerialise` specifies it |
| `OrderedMap.FlattenSerialise` | jenkins-jobcfg.py:160-162 | the written list has one single-key mapping per entry, in map order, and flattening it gives back the same map |
| `Credentials.LoadItems` | jenkins-jobcfg.py:109-112 | reading the store fails only for a malformed file; a missing or blank file reads as the empty list |
| `Credentials.SelectId` | jenkins-jobcfg.py:125-126 | the identifier is never empty; it is the given one when that is non-empty, and otherwise either `"default"` or the store's first key |
| `Credentials.DefaultIdIsFirstListed` | jenkins-jobcfg.py:117-126 | with no usable given identifier, the identifier is the first one listed in the file when non-empty, else `"default"` |
| `Credentials.EmptyStoreUsesDefault` | jenkins-jobcfg.py:110-126 | a missing, blank or empty store file gives the empty store and the identifier `"default"` |
| `Credentials.Lookup` | jenkins-jobcfg.py:129-132 | an absent identifier gives url, username and password all absent; a present one gives its stored entry |
| `Credentials.AbsentIdPrompts` | jenkins-jobcfg.py:103-107 | an absent identifier never passes the first check, so it always leads to the prompt |
| `Credentials.Check` | jenkins-jobcfg.py:103-107 | `jenkins_check_config`: passes only when url, user name and password are all non-empty and the `GET /api/json` gives status 200; `AbsentIdPrompts` and `PromptFallsBackToEnv` use it |
| `Credentials.Answer` | jenkins-jobcfg.py:146-151 | a non-empty answer is taken as typed; an empty answer gives the default |
| `Credentials.Prompted` | jenkins-jobcfg.py:141-153 | the prompt step fails exactly when input ends at one of the three prompts; the stored password is the encoding of the typed secret |
| `Credentials.PromptKeepsPrevious` | jenkins-jobcfg.py:143-151 | empty answers keep the previous url and user name; only the password changes |
| `Credentials.PromptFallsBackToEnv` | jenkins-jobcfg.py:143-155 | with no previous values, empty answers take `JENKINS_URL` and `USER`; an unset or empty one makes the second check fail |
| `Credentials.Store.constructor` | jenkins-jobcfg.py:121-122 | the store holds the flattened file, with unique identifiers |
| `Credentials.Store.Find` | jenkins-jobcfg.py:129 | the entry stored under the identifier, or all values absent |
| `Credentials.Store.Upsert` | jenkins-jobcfg.py:158-159 | the store becomes the old store with the entry upserted in place; identifiers stay unique |
| `Credentials.Store.Items` | jenkins-jobcfg.py:160-162 | the list handed to the writer flattens back to the store |
| `Credentials.Resolve` | jenkins-jobcfg.py:114-169 | a malformed file exits 1. Credentials that pass the first check are returned and nothing is written. Otherwise the prompted values are checked again, by a second request that may see the server differently: on success they are returned and the upserted store is written; on failure or end of input the process exits 1 and writes nothing. Returned credentials always passed the check, and the written list reads back as the upserted store |
| `Credentials.WrittenStore` | jenkins-jobcfg.py:157-162 | read back, the written store holds the new entry under the identifier exactly once, every other identifier unchanged in value and order, an existing identifier in its old position and a new one last |
| `JobFiles.ConfigFileName` | jenkins-jobcfg.py:224 | `'config-%s.yaml' % job_name` for any extension; `FileNameRoundTrip` specifies it |
| `JobFiles.JobName` | jenkins-jobcfg.py:340 | `re.match('^config-(.*)\.[^.]*$', f).group(1)`; `JobNameSound`, `JobNameComplete` and `JobNameIff` specify it |
| `JobFiles.JobNameSound` | jenkins-jobcfg.py:340 | an extracted job name spells the file as `config-`, the name, a dot and a dot-free extension, with no newline in the name |
| `JobFiles.JobNameComplete` | jenkins-jobcfg.py:340 | every such spelling of the file is the one extracted |
| `JobFiles.JobNameIff` | jenkins-jobcfg.py:340-345 | the pattern matches with group `name` if and only if the file is `config-<name>.<ext>` with `ext` dot-free and `name` newline-free |
| `JobFiles.FileNameRoundTrip` | jenkins-jobcfg.py:220-224 | `config-<job>.yaml` and `config-<job>.xml` read back as `<job>` for every job name without a newline, dots included |
| `JobFiles.Classify` | jenkins-jobcfg.py:340-345 | one loop step: skip an unmatched file, otherwise submit it under the matched name, converting when it ends in `.yaml` (the test at 232 and 247); `Plan` states it for the whole list |
| `JobFiles.Plan` | jenkins-jobcfg.py:338-354 | one action per file, in order; a file is skipped exactly when no job name matches it, otherwise it is submitted under the matched name and converted exactly when its name ends in `.yaml` |
| `Presenter.SplitLines` | jenkins-jobcfg.py:68 | Python 2.7's `unicode.splitlines`; `MultilineIff` and `TrailingNewlineKeepsDefault` specify it |
| `Presenter.MultilineIff` | jenkins-jobcfg.py:68 | `splitlines()` gives more than one piece exactly when some line boundary is followed by more text, a final `\r\n` not counting |
| `Presenter.RemoveCR` | jenkins-jobcfg.py:71 | `replace('\r', '')`: no `\r` is left and the text does not grow; `RemoveCRAppend`, `RemoveCRNoop` and `RemoveCRCounts` specify it |
| `Presenter.RemoveCRAppend` | jenkins-jobcfg.py:71 | removing `\r` works piecewise over concatenation |
| `Presenter.RemoveCRNoop` | jenkins-jobcfg.py:71 | text without `\r` is left unchanged |
| `Presenter.RemoveCRCounts` | jenkins-jobcfg.py:71 | every character other than `\r` keeps its number of occurrences |
| `Presenter.Present` | jenkins-jobcfg.py:67-74 | `str_presenter`; `PresentSpec`, `PresentIdempotent` and `LoneCarriageReturnJoinsLines` specify it |
| `Presenter.PresentSpec` | jenkins-jobcfg.py:67-74 | a literal block is requested exactly for multiline text, which comes back with every `\r` removed; other text comes back unchanged with no style requested, so the emitter picks the style |
| `Presenter.PresentIdempotent` | jenkins-jobcfg.py:67-74 | presenting the presented text again leaves it unchanged |
| `Presenter.TrailingNewlineKeepsDefault` | jenkins-jobcfg.py:68 | one line followed by a lone `\n` or `\r\n` is not multiline: it comes back unchanged with no style requested |
| `Presenter.LoneCarriageReturnJoinsLines` | jenkins-jobcfg.py:68-73 | `"a\rb"` is multiline, so the single line `"ab"` is handed on with a literal block requested |
| `Crumb.Split` | jenkins-jobcfg.py:200 | `str.split(':')`: at least one piece, none holding the separator; `SplitJoin` and `SplitOfJoin` specify it |
| `Crumb.SplitJoin` | jenkins-jobcfg.py:200 | `split(':')` gives one more piece than there are colons, and joining the pieces gives back the text |
| `Crumb.SplitOfJoin` | jenkins-jobcfg.py:200 | splitting joined colon-free pieces gives back the pieces |
| `Crumb.CrumbHeaders` | jenkins-jobcfg.py:192-200 | a 404 gives no header; a 200 succeeds exactly when the body holds one colon and gives the one header `{field: value}` the body spells; any other status, or a failed request, is an error |
| `Crumb.CrumbRoundTrip` | jenkins-jobcfg.py:196-200 | a 200 body `field:value` with colon-free parts gives exactly the header `{field: value}` |
| `Crumb.RequestHeaders` | jenkins-jobcfg.py:179-183 | a GET sends the caller's headers; a POST fails exactly when the crumb fails, and otherwise sends the caller's headers and the crumb header, the crumb winning on a shared name |
| `Masking.Mask` | jenkins-jobcfg.py:367 | `re.sub('password: .*', 'password: *****', text)`; `MaskWithoutKey`, `MaskHidesSecret`, `MaskAfterPrefix`, `MaskKeepsLines` and `MaskIdempotent` specify it |
| `Masking.MaskWithoutKey` | jenkins-jobcfg.py:367 | text without `password: ` is printed unchanged |
| `Masking.MaskHidesSecret` | jenkins-jobcfg.py:367 | at the start of the text, `password: <secret>` up to the end of its line becomes `password: *****` |
| `Masking.MaskAfterPrefix` | jenkins-jobcfg.py:361-367 | after any text holding no earlier `password: ` (such as the indented `- <id>:` lines of the dump), `password: <secret>` up to the end of its line becomes `password: *****`, the text before it unchanged |
| `Masking.MaskKeepsLines` | jenkins-jobcfg.py:367 | masking keeps the number of lines |
| `Masking.MaskIdempotent` | jenkins-jobcfg.py:367 | masking masked text changes nothing |

## Left out

- `xml2yaml` and `yaml2xml` (jenkins-jobcfg.py:61-98): the tree conversion, the folding of repeated tags into lists, attribute keys and pretty-printing are done by `xmltodict` and PyYAML, which are not part of this model. Only the `str_presenter` string rule is modelled.
- HTTP: the `requests` calls, TLS verification and warning suppression are the server oracle. `jenkins_job_list`, `jenkins_fetch_config`, `jenkins_push_config`, `jenkins_create_job` and `jenkins_delete_job` are requests plus printing. Of them only the file-name decision and the `.yaml` test are modelled.
- File I/O: `os.path.isfile`, `open`, `os.chmod(..., 0600)` and `expanduser` are not modelled. The written store is the list of mappings handed to the writer. The source truncates the store file with `open(..., 'wb')` and rewrites it in place, with no temporary file and rename (jenkins-jobcfg.py:160-163); a failure after the truncation, which leaves the file empty or partly written, is not represented.
- `Credentials.Lookup`: identifiers are compared as text. In the source a `-c` value is a byte `str` (jenkins-jobcfg.py:289) while `yaml.safe_load` gives a non-ASCII key as `unicode`, and in Python 2 the two never compare equal; such an identifier reads as absent at line 129, leads to the prompt, and on success the upsert at line 158 appends a second entry under the same text. The model finds the stored entry instead.
- YAML loading and dumping of the store: what the parser yields is a `StoreFile` value. A document that is null or another false value (`{}`, `[]`, `false`, `0`, `''`) reads as the empty list through `... or []` (jenkins-jobcfg.py:110-111); `StoreFile.Blank` stands for all of these. A true document that is not a list of mappings from identifiers to `url`/`username`/`password` mappings is not modelled. Values that are not strings are not modelled.
- `Credentials.Entry` holds only `url`, `username` and `password`. An entry with further keys is written back with them under every identifier other than the upserted one, which is replaced by a three-key mapping (jenkins-jobcfg.py:158-159); the model drops the further keys everywhere.
- A null entry is not modelled. Under an identifier that is not selected it is written back as null; under the selected identifier `config_dict.get` is called on `None` outside the `try` (jenkins-jobcfg.py:130) and the script crashes.
- A list item with several keys is flattened in file order. Python 2's `dict.items()` order for such an item is unspecified.
- Interactive input (`raw_input`, `getpass`) and the environment are parameters. The prompt texts are not modelled.
- `Credentials.Prompted`: the password is `encode(secret)` for the encoder passed in. Base64 itself (section 4 of RFC 4648) is not modelled, and neither is decoding, which happens inside the server oracle.
- `Crumb.RequestHeaders`: the caller's headers are a value, so "a copy of the caller's dictionary" holds trivially. A `None` argument and an empty dictionary are the same empty map. The request the crumb comes from is the `crumb` response parameter.
- `Presenter.Present`: the model states which style the presenter requests, not the style the emitter writes. PyYAML's emitter may still choose a quoted style when the text holds characters that block style does not allow, such as a form feed or a space before a line break, as the comment at jenkins-jobcfg.py:69-70 warns. The emitter is not part of this model.
- The presenter is registered for `unicode` only. Byte strings take PyYAML's default presenter, which is not modelled. The line boundaries are those of Python 2.7's `unicode.splitlines`.
- Masking works on any text. The YAML dump of the store that produces the text in the `config` command is not modelled.
- argparse wiring, the Python-version and import checks, `sys.exit` and all printing are not modelled. An exit is the `Exit(1)` outcome.
