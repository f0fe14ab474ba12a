# Salesforce report payload processing, modelled in Dafny

This project models the two pieces of payload processing in two Streamlit
pages that pull consultant data from Salesforce through a webhook service.

- **Report row extraction** (`extract_rows`, pull_consultant_by_folder.py).
  It takes a decoded Salesforce report export. The column headers are the
  `label` of every `detailColumnInfo` entry, in the order the export gives
  them. The extractor then walks the `factMap` groups in order and skips the
  grand-total group `"T!T"`. Each row's cells are aligned to the headers by
  position. A cell label that holds `<a href=` is replaced by the trimmed
  text of its first anchor, when that anchor has text. The result is one
  record per row plus the header list.
- **Fragment recovery** (pull_salesforce_contacts.py). The response text is
  cut into the substrings matched by the regular expression `\{[^}]+\}`,
  left to right. Each fragment is stripped and parsed on its own. An item is
  kept when the fragment parses; otherwise the fragment is reported and
  skipped.

Files:

- `wrappers.dfy`: `Option` and `Result`.
- `pytext.dfy` (module `PyText`): Python's `p in s` (`Contains`) and
  `str.strip()` (`Strip`), with whitespace as `str.isspace()` defines it.
- `ordereddict.dfy` (module `OrderedDict`): a Python `dict` as an
  insertion-ordered list of pairs. `Set` is `d[k] = v`; `Get` is `d.get(k)`.
- `reportrows.dfy` (module `ReportRows`): the payload as typed records. A key
  that the code reads with `d[key]` is an `Option`, so a missing key raises
  `KeyError` as in the code. `Extract` is the specification function. The
  method `ExtractRows` runs the source's nested loops, one method per loop
  level, and is proved equal to `Extract`.
- `contactfragments.dfy` (module `ContactFragments`): the regular-expression
  scan as a recursive function over positions, and the parse loop as a
  method proved against the functions `Recovered` and `Rejected`.

The HTML parser and the JSON decoder are foreign code. Each is a
function-valued parameter: `anchor` gives the text of the first `a` element
of a label, or `None`; `parse` gives the decoded item, or `None` on failure.

A label that contains `<a href=` but whose anchor has no text is kept raw,
so link markup can reach a cell value; `LinkWithoutTextKept` shows one.

## Model

| member | source | states |
|---|---|---|
| `ReportRows.ColumnHeaders` | pull_consultant_by_folder.py:40-41 | The headers are the `label` of each column entry, one per entry, in the entries' order. It fails with `KeyError("label")` exactly when some entry has no label. |
| `ReportRows.CellValue` | pull_consultant_by_folder.py:54-60 | A cell with no label gives `""`. A label without `<a href=` is never changed. Any value is either the label as it stands or a string with no whitespace at either end. |
| `ReportRows.RowRecord` | pull_consultant_by_folder.py:52-61 | A row's record exists exactly when the row has no more cells than there are headers. Otherwise the error is `IndexError`. |
| `ReportRows.RowRecordFields` | pull_consultant_by_folder.py:52-61 | The record's keys are exactly the headers at positions `0..n-1`, with no key twice. Under each header is the value of the last cell at that header's positions. |
| `ReportRows.GroupRecords` | pull_consultant_by_folder.py:49-62 | A group yields one record per row, in row order; record `k` is the record of row `k`'s cells. It succeeds exactly when every row has `dataCells` that fit the headers. |
| `ReportRows.RowResult` | pull_consultant_by_folder.py:50-53 | One row yields its one record exactly when it has `dataCells` that fit the headers. |
| `ReportRows.EntryRecords` | pull_consultant_by_folder.py:46-49 | A `factMap` entry succeeds exactly when it is the `"T!T"` group, or has `rows` that all fit. |
| `ReportRows.FactRecords` | pull_consultant_by_folder.py:46-62 | Walking the groups succeeds exactly when every entry is the `"T!T"` group or has fitting rows. |
| `ReportRows.Extract` | pull_consultant_by_folder.py:38-64 | Extraction succeeds exactly when the payload conforms: all read keys present, every column labelled, every non-total row fitting. The headers are then the column labels in order, whatever `factMap` holds. With no `reportExtendedMetadata` it fails on that key first. |
| `ReportRows.ExtractRows` | pull_consultant_by_folder.py:38-64 | The loop over the groups returns exactly `Extract(data, anchor)`, errors included. The result depends only on the inputs, so a rerun gives the same rows and headers. |
| `ReportRows.AppendGroupRows` | pull_consultant_by_folder.py:49-62 | The loop over a group's rows returns the earlier output followed by the group's records. It stops at the first failing row with that row's error. |
| `ReportRows.BuildRowData` | pull_consultant_by_folder.py:51-61 | The loop over a row's cells, including the `cell_value` rewrite, returns exactly `RowRecord`. |
| `ReportRows.GroupRecordsAppend` | pull_consultant_by_folder.py:50-62 | Extracting rows `a + b` is extracting `a` and then `b`: output keeps row order, and the first error wins. |
| `ReportRows.FactRecordsAppend` | pull_consultant_by_folder.py:46-62 | Extracting groups `a + b` is extracting `a` and then `b`: output is in group order, with no re-sorting. |
| `ReportRows.GroupRecordsFail` | pull_consultant_by_folder.py:50-53 | An error in the first `n` rows is the whole group's error. |
| `ReportRows.FactRecordsFail` | pull_consultant_by_folder.py:46-53 | An error in the first `n` groups is the whole extraction's error. |
| `ReportRows.TotalsIgnored` | pull_consultant_by_folder.py:46-48 | Extraction equals extraction with every `"T!T"` entry removed. So no total row reaches the output, and a malformed total group raises nothing. |
| `ReportRows.WithoutTotals` | pull_consultant_by_folder.py:47-48 | The filtered map has no `"T!T"` entry. |
| `ReportRows.WithoutTotalsMembers` | pull_consultant_by_folder.py:46-48 | An entry survives the filter exactly when it is in the map and its key is not `"T!T"`. |
| `ReportRows.WithoutTotalsAppend` | pull_consultant_by_folder.py:46-48 | Filtering `a + b` is filtering `a`, then `b`, so the kept entries stay in map order. |
| `ReportRows.FactRecordsCount` | pull_consultant_by_folder.py:46-62 | A successful walk outputs as many records as there are rows in the non-`"T!T"` groups. |
| `ReportRows.ExtractCount` | pull_consultant_by_folder.py:38-64 | The same count for the whole payload. |
| `ReportRows.CellValueCases` | pull_consultant_by_folder.py:54-60 | A missing label gives `""`. A label without the literal `<a href=` is kept. A label with it becomes the trimmed anchor text when the anchor has non-empty text, and is kept otherwise. |
| `ReportRows.RewrittenValueTrimmed` | pull_consultant_by_folder.py:59-60 | A rewritten value is a contiguous middle part of the anchor text, with only whitespace cut off around it and none left at either end. |
| `ReportRows.LinkWithoutTextKept` | pull_consultant_by_folder.py:56-59 | A link label whose anchor text is empty stays, markup included, in the output. |
| `OrderedDict.Set` | pull_consultant_by_folder.py:61 | After `d[k] = v`, `k` maps to `v` and every other key keeps its value. The key set gains `k`. |
| `OrderedDict.SetKeepsPosition` | pull_consultant_by_folder.py:61 | Assigning to a key already present leaves the order of the keys unchanged. |
| `OrderedDict.SetAppends` | pull_consultant_by_folder.py:61 | Assigning to a new key appends the pair at the end. |
| `OrderedDict.SetDistinct` | pull_consultant_by_folder.py:61 | Assignment never makes a key occur twice. |
| `OrderedDict.Get` | pull_consultant_by_folder.py:61 | Reading a key back from a dictionary such as `row_data`: the lookup is absent exactly when the key is not in the dictionary. |
| `OrderedDict.GetFirst` | pull_consultant_by_folder.py:61 | A present key yields the value of the first pair holding it. |
| `OrderedDict.KeySetAt` | pull_consultant_by_folder.py:61 | A key is in the dictionary exactly when some pair holds it. |
| `PyText.Contains` | pull_consultant_by_folder.py:56 | `p in s` holds exactly when `p` occurs in `s` at some position. |
| `PyText.Strip` | pull_consultant_by_folder.py:60 | `strip()` returns the contiguous middle of its input with only whitespace around it. The result has no whitespace at either end, and is empty exactly when the input is all whitespace. |
| `PyText.StripTrimmed` | pull_salesforce_contacts.py:24 | Stripping a string with no whitespace at either end leaves it unchanged. |
| `ContactFragments.NextClose` | pull_salesforce_contacts.py:20 | The position found holds the first `}` at or after the start, or is the end of the text. |
| `ContactFragments.Scan` | pull_salesforce_contacts.py:20 | The scan from `p` finds at most one span per three characters of the rest of the text. |
| `ContactFragments.Fragments` | pull_salesforce_contacts.py:20 | `findall` returns at most one fragment per three characters of the text, and every piece it returns is a fragment. |
| `ContactFragments.MatchAt` | pull_salesforce_contacts.py:20 | A match at `p` spans at least three characters and stays inside the text. |
| `ContactFragments.MatchAtExact` | pull_salesforce_contacts.py:20 | The pattern at `p` matches `s[p..e]` exactly when that substring is a fragment: `{`, at least one non-`}` character, then `}`. So at most one fragment starts at each position. |
| `ContactFragments.ScanSound` | pull_salesforce_contacts.py:20 | Every span found is a fragment of the text. Spans are in strictly increasing position order and do not overlap. |
| `ContactFragments.ScanMaximal` | pull_salesforce_contacts.py:20 | The scan is leftmost-first and misses nothing: no position outside the spans found starts a fragment. |
| `ContactFragments.MaximalAfterMatch` | pull_salesforce_contacts.py:20 | When the pattern matches at `p` and the scan from the match's end misses nothing, the scan from `p` misses nothing either. |
| `ContactFragments.MaximalAfterMiss` | pull_salesforce_contacts.py:20 | When the pattern fails at `p` and the scan from `p + 1` misses nothing, the scan from `p` misses nothing either. |
| `ContactFragments.FragmentsAreFragments` | pull_salesforce_contacts.py:20 | Each piece `findall` returns starts with `{` and ends with `}`. It has no other `}` and at least three characters. It is the text at its span, and the spans are ordered. |
| `ContactFragments.StripFragment` | pull_salesforce_contacts.py:24 | `entry.strip()` leaves every fragment unchanged. |
| `ContactFragments.EmptyBracesStartNothing` | pull_salesforce_contacts.py:20 | A `{` directly followed by `}` starts no fragment. |
| `ContactFragments.SampleSecondObject` | pull_salesforce_contacts.py:20 | In `{"a":1}garbage{"b":2}`, the scan from just after the first object finds only the second object. |
| `ContactFragments.TwoObjectsAroundGarbage` | pull_salesforce_contacts.py:20 | `{"a":1}garbage{"b":2}` yields exactly `{"a":1}` and `{"b":2}`. |
| `ContactFragments.NestedObjectMisSplit` | pull_salesforce_contacts.py:20 | `{"a":{"b":1}}` yields the single fragment `{"a":{"b":1}`. The nested object is cut. |
| `ContactFragments.ParseEntry` | pull_salesforce_contacts.py:24-27 | An entry with no whitespace at either end is decoded exactly as it stands. |
| `ContactFragments.Recovered` | pull_salesforce_contacts.py:22-28 | The kept items are no more than the entries, and each is the decoded value of some entry that parses. |
| `ContactFragments.Rejected` | pull_salesforce_contacts.py:26-31 | The reported entries are no more than the entries, and each is the stripped form of some entry that fails to parse. |
| `ContactFragments.ParseEntries` | pull_salesforce_contacts.py:22-31 | The loop's items are exactly the successful parse results in entry order. The reported entries are exactly the stripped entries that failed. |
| `ContactFragments.EveryEntryAccounted` | pull_salesforce_contacts.py:22-31 | Every entry is either kept or reported, never both, so there are at most as many items as entries. |
| `ContactFragments.RecoveredAppend` | pull_salesforce_contacts.py:23-28 | The items of `a + b` are the items of `a` followed by those of `b`. |
| `ContactFragments.SkipFailure` | pull_salesforce_contacts.py:26-31 | A failing entry adds nothing and does not stop the entries after it. |
| `ContactFragments.RecoverRecords` | pull_salesforce_contacts.py:20-31 | The recovered items are the successful parses of the fragments, in order, and there are no more of them than fragments. |
| `ContactFragments.FragmentsParsedAsFound` | pull_salesforce_contacts.py:20-27 | Since stripping leaves fragments unchanged, each fragment is parsed exactly as `findall` returned it. |

## Left out

- The Streamlit page (title, select box, button, success, error and write messages, table and dataframe display): presentation only. A failing fragment's report is modelled as the entry appended to `reported`; the exception's message text is foreign code.
- The HTTP request and the branching on status code and empty body in both `send_data_to_make` functions, including stripping the response text: network I/O. `RecoverRecords` starts from the stripped, non-empty response text.
- The `st.secrets` lookup and the fixed webhook URL: configuration.
- The inside of BeautifulSoup (`BeautifulSoup(...)`, `find("a")`, `.text`): foreign code, modelled as the `anchor` parameter. A found anchor tag is always truthy in Python, so "anchor with text" means the text is non-empty.
- The inside of `json.loads` in the contacts page: foreign code, supplied as the `parse` parameter.
- The `json.loads` of the report response in the consultant page's `send_data_to_make`: left out with that function. `Extract` takes the already decoded payload.
- Decoded JSON objects are assumed to have distinct keys, as every object `json.loads` builds does. `Dict` itself allows a repeated key, and on such a `detailColumnInfo` `ColumnHeaders` would give one header per pair.
- pandas `DataFrame` construction: table rendering.
- The static category dictionary and the list of industries: constant data with no behaviour.
- JSON values of unexpected types (a `label` that is a number or null, a `rows` that is not a list) and the `TypeError`s they would cause: the payload is typed, so only missing keys and surplus cells are modelled as errors.
- The variant with a `*` warning column, the `"3!T"`/`"4!T"` exclusion set and the text filter box: that variant is not part of this model.
