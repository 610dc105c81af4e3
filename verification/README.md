# Anitya upstream-version extraction, modelled in Dafny

Anitya watches upstream projects for new releases. The backends package
offers helpers that a backend which scrapes a page for versions can use.
They fetch a page for the project (`call_url`). They run the project's
regular expression over the text (`re.findall`). Each distinct raw match
becomes one version string, a tuple of groups being joined with `.` after
its empty groups are dropped. If any
of those strings contains a space, the pattern over-matched and the whole
call fails. If nothing matched, the call fails too. `get_ordered_versions`
hands a backend's versions to the external `order_versions`.

The project models these helpers in three modules:

- `Seqs` (`seqs.dfy`): element sets, duplicate-freedom, order-keeping
  deduplication (`set(...)`), `".".join` and its inverse `split`.
- `Backends` (`backends.dfy`): the data model and the pipeline.
  - `Match` is one `findall` item: a string, or a tuple of groups.
  - `FindAll` is what the engine gives back: `BadPattern` or the matches.
  - `Fetched` is what `call_url` gives back: an exception, a raw FTP body, or
    an HTTP response with its decoded `.text`.
  - `PluginError` holds the four causes of `AnityaPluginException`, with the
    project name, url, pattern and candidate each message carries.
  - The operations are `ExtractVersions` (the body of
    `get_versions_by_regex_for_text` after `findall`), the in-place loop as
    written (`ExtractVersionsInPlace`), `VersionsByRegexForText`,
    `VersionsByRegex` and `GetOrderedVersions`.
- `BackendProperties` (`properties.dfy`): lemmas that relate several calls
  and the concrete scenarios.

Several collaborators are passed in as function values. The regular
expression engine, `call_url`, a backend's `get_versions` and
`order_versions` are all parameters. Whatever they return, the contracts
say what the pipeline makes of it.

Two details of the code shape the results:

- Only the literal space is rejected (`" " in version`, line 155). Tabs and
  newlines are accepted (`TabAccepted`).
- Raw matches are deduplicated before joining (line 146). So two tuples that
  join to the same string both stay (`JoinedDuplicatesKept`).

## Model

| member | source | states |
|---|---|---|
| Seqs.Dedup | anitya/lib/backends/__init__.py:146 | `list(set(ms))`: the result is duplicate-free and holds exactly the elements of the input |
| Seqs.DedupCard | anitya/lib/backends/__init__.py:146 | the deduplicated list has one entry per distinct raw match |
| Seqs.Join | anitya/lib/backends/__init__.py:153 | `".".join(parts)`: no parts give `""`. The first part is a prefix, a separator follows it when there are two or more parts, and the length is the parts' total length plus one per gap. Partners: `Seqs.JoinChars` and `Seqs.SplitJoin` |
| Seqs.JoinChars | anitya/lib/backends/__init__.py:153 | a character occurs in `sep.join(parts)` iff it occurs in some part, or it is the separator and there are two or more parts |
| Seqs.SplitJoin | anitya/lib/backends/__init__.py:153 | splitting `sep.join(parts)` at `sep` gives `parts` back when no part contains `sep` |
| Backends.NonEmptyGroups | anitya/lib/backends/__init__.py:153 | the kept groups are exactly the non-empty groups of the tuple |
| Backends.NonEmptyGroupsMultiset | anitya/lib/backends/__init__.py:153 | the kept groups are the tuple's groups with every `""` removed, repeats included |
| Backends.NonEmptyGroupsConcat | anitya/lib/backends/__init__.py:153 | filtering distributes over concatenation, and a single group is kept iff it is non-empty. So the kept groups keep the tuple's order |
| Backends.Normalize | anitya/lib/backends/__init__.py:152-154 | a string match is used unchanged. A joined tuple holds exactly the characters of its groups, plus `.` when two or more groups are kept. Partners: `BackendProperties.NormalizeSpace` and `BackendProperties.NormalizeSplit` |
| Backends.FirstSpaced | anitya/lib/backends/__init__.py:151-158 | finds the first candidate containing `' '`; none is found iff no candidate contains one |
| Backends.NormalizedCount | anitya/lib/backends/__init__.py:146-154 | after deduplication, a version appears as many times as there are distinct raw matches that normalize to it |
| Backends.ExtractVersions | anitya/lib/backends/__init__.py:145-165 | a bad pattern gives invalid-pattern. No match gives no-version-found. It succeeds iff some match exists and no normalized match holds a space. Any spaced candidate gives invalid-version, naming a spaced normalized match with name, url and regex. On success the result is sound and complete, has one entry per distinct raw match, and gives each version its exact count |
| Backends.ExtractVersionsInPlace | anitya/lib/backends/__init__.py:151-165 | the in-place loop, with tuples rewritten in the list and an early raise, computes the same outcome as `ExtractVersions` |
| Backends.VersionsByRegexForText | anitya/lib/backends/__init__.py:139-165 | a bad pattern is reported iff the engine rejects the pattern. It succeeds iff the engine found matches and none normalizes to a spaced string. Version counts follow the engine's matches. It never reports a fetch failure |
| Backends.VersionsByRegex | anitya/lib/backends/__init__.py:120-136 | a fetch error becomes the call-failed error with url and project name, and is the only source of that error. Otherwise the result is that of extraction over the fetched text |
| Backends.GetOrderedVersions | anitya/lib/backends/__init__.py:67-81 | a failure of `get_versions` propagates unchanged. It succeeds exactly when `get_versions` does |
| BackendProperties.OrderedVersionsEstablish | anitya/lib/backends/__init__.py:80-81 | on success the result is `order_versions` applied to exactly the `get_versions` list. Whatever `order_versions` guarantees of every list it returns, sortedness included, holds of the result |
| BackendProperties.OrderedVersionsPermute | anitya/lib/backends/__init__.py:80-81 | if `order_versions` only rearranges, the ordered list has the same multiset and the same set of versions as `get_versions` |
| BackendProperties.NormalizeSpace | anitya/lib/backends/__init__.py:151-158 | a normalized candidate holds a space iff the string match does, or some group of the tuple does. The check after joining catches a space inside any group |
| BackendProperties.NormalizeSplit | anitya/lib/backends/__init__.py:152-154 | if no group contains `.` and some group is non-empty, splitting a normalized tuple at `.` gives its non-empty groups |
| BackendProperties.NormalizeExamples | anitya/lib/backends/__init__.py:152-154 | `("1","2","")` and `("1","","2")` become `"1.2"`. `("","","")` becomes `""`. A string match is unchanged |
| BackendProperties.SameMatchSetSameOutcome | anitya/lib/backends/__init__.py:146-165 | matches with the same set of raw items give the same success, the same error kind and the same versions up to order. Only the named spaced candidate may differ |
| BackendProperties.JoinedDuplicatesKept | anitya/lib/backends/__init__.py:146-154 | `("1","2","")` and `("1","","2")` both stay, giving `["1.2","1.2"]` |
| BackendProperties.IdenticalMatchesCollapse | anitya/lib/backends/__init__.py:146 | two identical raw matches give one version |
| BackendProperties.TwoTarballs | anitya/lib/backends/__init__.py:145-165 | matches `1.0` and `2.0` succeed, giving those two versions once each in some order |
| BackendProperties.SpaceAbortsWholePage | anitya/lib/backends/__init__.py:151-158 | one candidate `foo bar` among good ones fails the call with invalid-version naming `foo bar` |
| BackendProperties.SpaceInsideGroupCaught | anitya/lib/backends/__init__.py:151-158 | the tuple `("1 ","2")` is joined to `"1 .2"` and then rejected |
| BackendProperties.TabAccepted | anitya/lib/backends/__init__.py:155 | a candidate with a tab and no space is accepted |
| BackendProperties.EmptyTupleKept | anitya/lib/backends/__init__.py:152-165 | a tuple of empty groups becomes the empty version, and the call succeeds with it |
| BackendProperties.FetchedTextOnly | anitya/lib/backends/__init__.py:126-136 | an FTP body and an HTTP response with the same text give the same outcome: extraction over that text |

## Left out

- `BaseBackend.call_url` (lines 84-117): network I/O, the User-Agent and
  From headers, the 30-second socket timeout for FTP and the configuration
  lookup. It is the `callUrl` parameter, and only its three kinds of outcome
  are modelled.
- The regular expression engine and the `REGEX` template (lines 23-24). How
  `re.findall` scans, whether it returns strings or tuples and what the
  inline flags do are left to the `findAll` parameter. Only its two kinds of
  outcome, a pattern error or a list of matches, are modelled.
- `get_version` and `get_versions` (lines 34-64) are per-backend stubs. A
  backend's `get_versions` is a function value of the `Backend` datatype.
- `anitya.order_versions` is not part of this model. It is a parameter, and
  the `Permutes` predicate states the one thing assumed of it.
- Backends.GetOrderedVersions: does not state that the result is sorted,
  because the comparison rule of `order_versions` is external. The
  `OrderedVersionsEstablish` lemma carries any such guarantee over to the
  result, and the permutation property is proved under `Permutes`.
- Backends.ExtractVersions: the order of `list(set(...))` depends on Python's
  hashing. The model keeps first occurrences, so the result order and the
  spaced candidate an invalid-version error names follow that one order.
  Every other stated property is order-independent.
- Logging (line 129) and the exact text of the exception messages. The
  errors carry the fields the messages interpolate.
- Exceptions other than the pattern error inside `re.findall` (a `None`
  text, for example), and Python 2 byte/unicode distinctions.
