# Blacklist store, remote-change test and number-pattern audit

A Dafny model of the behaviour SmokeDetector's blacklist tests pin down
(`test/test_blacklists.py`):

- **The blacklist store** (`Blacklists`, `blacklists.dfy`). A list document of
  one kind (CIDR ranges, autonomous-system numbers or nameservers) is an ordered
  sequence of records `Item(value, disabled, comment)`. `Add` validates a
  candidate (a bare value or a whole record), refuses it when a record with the
  same key already exists, disabled ones included, and otherwise appends it.
  `Remove` drops the records with the candidate's value and fails when there is
  none. `Parse` returns the values of the records that are not disabled. The
  store's errors are the `ValueError`s of the source, told apart by cause:
  `Malformed`, `Duplicate` and `NotFound`. A failed operation returns only an
  error, so the caller keeps the record sequence it had: the store is unchanged.
- **The store tests** (`YamlTests`, `yaml_tests.dfy`) replay `test_yaml_blacklist`,
  `test_yaml_asn` and `test_yaml_nses` on the model, starting from their
  three-record documents.
- **The remote-change predicate** (`Helpers.FilesChanged`, `helpers.dfy`). It
  splits a diff listing the way Python's argument-less `str.split()` does
  (`Text.Split`, `text.dfy`). It reports whether any listed file is in the set
  of interest.
- **The number-pattern audit** (`NumberLists`, `number_lists.dfy`), the logic of
  `test_number_lists` itself. Each pattern of the watched list, and then of the
  blacklisted list, is classified and reported with its list, its 1-based line
  and its digit count. A pattern that fails the general grammar is an error. A
  pattern that passes it but misses the start- or end-anchored grammar is a
  warning. The run fails exactly when an error was collected.

Abstractions:

- A schema parser's entry validator is not part of this model. `Parser` holds
  it as a predicate `valid` on values. The scenario lemmas assume only the
  verdicts the tests rely on, for example that `1.3.34` and `1.3.4` are invalid
  CIDR values and `invalid` is an invalid ASN.
- Regex search in ASCII mode and in Unicode mode is a pair of predicates
  (`NumberLists.Regex`). The `\d` class is the predicate `isDigit`. The
  grammar constants `NUMBER_REGEX`, `NUMBER_REGEX_START`, `NUMBER_REGEX_END`
  and the two digit bounds are fields of `NumberLists.Grammar`. Every result
  holds for any grammar.
- `NumberLists.Failure` and `NumberLists.NoExact` are structured reports. They
  carry what the source's formatted messages carry: list, line, digit count,
  bounds verdict, the anchored grammars missed, and the pattern.

Assumptions where the tests leave a choice open:

- Nameservers are compared for duplicates by their ASCII lower-cased value
  (`Blacklists.Key`), while `parse()` keeps values as written. This explains
  both `'EXAMPLE.COM.' not in parse()` and the refused `add` of `EXAMPLE.COM.`.
  The tests alone would also fit a validator that refuses upper-case names.
  `YamlTests.NsListScenario` proves that the `add` fails under either reading,
  and that it fails as a duplicate whenever the validator accepts the name.
- `remove` looks for the value among all records, disabled ones included, and
  drops every record with that value. On a document without shared keys, which
  `add` maintains, that is exactly one record (`Blacklists.RemoveDeletesOneRecord`).
- `remove` does not validate its candidate.
- `remove` matches the exact value, while `add` compares nameservers by their
  lower-cased key. So removing `EXAMPLE.COM.` from a list holding only
  `example.com.` raises a not-found error in this model; the tests do not
  exercise that case.
- `helpers.py` is not part of this model, so the meaning of
  `not_regex_search_ascii_and_unicode` is a chosen reading: a pattern passes a
  grammar (`NumberLists.Matches`) when the search finds it in both ASCII and
  Unicode mode, and fails when either mode misses it. The name also reads as
  "neither mode finds it", under which passing would need only one mode. The
  lemmas hold for any definition of `Matches`, so only this predicate would
  change.

Behaviour the tests pin down that a reader might not expect:

- A digit count outside the bounds only changes the text of a report, never
  whether a pattern is an error (test/test_blacklists.py:25-29).
  `NumberLists.DigitBoundsNeverDecide` proves that it never changes a verdict.
- Adding `EXAMPLE.COM.` next to `example.com.` raises
  (test/test_blacklists.py:154-155), although `parse()` tells the two spellings
  apart (test/test_blacklists.py:150-151).
- The duplicate check covers disabled records as well as active ones
  (test/test_blacklists.py:92-93, 125-126).

## Model

| member | source | states |
|---|---|---|
| Blacklists.Parse | test/test_blacklists.py:97-99 | a value is in `parse()` exactly when some non-disabled record holds it, so disabled values never appear |
| Blacklists.Add | test/test_blacklists.py:86-96 | add succeeds exactly when the validator accepts the value and no record, active or disabled, has the same key, and then the result is the document with the normalized record appended; a value the validator refuses raises a malformed-value error before anything else; a valid value whose key is taken (the same value, or for nameservers the same name in another letter case) raises a duplicate error; a successful add keeps every active value and adds the new one unless the record is disabled; it keeps the document free of shared keys |
| Blacklists.Remove | test/test_blacklists.py:94-101 | removing raises a not-found error exactly when no record holds the value; on success the result is the document with exactly the records holding that value taken out, the others kept in their order, nothing added, and `parse()` loses exactly that value |
| Blacklists.AddTwiceRefused | test/test_blacklists.py:90-91 | adding a candidate a second time, right after it was added, raises a duplicate error |
| Blacklists.RemoveUndoesAdd | test/test_blacklists.py:96-101 | removing the value just added gives back the document exactly as it was before the add |
| Blacklists.RemoveKeepsUnique | test/test_blacklists.py:90-95 | a successful remove keeps a document without shared keys free of them |
| Blacklists.RemoveDeletesOneRecord | test/test_blacklists.py:158-159 | on a document without shared keys a successful remove deletes exactly one record |
| Blacklists.WithoutAppend | test/test_blacklists.py:100-101 | dropping a value from two record lists glued together keeps, in order, what it keeps of each, so a removal never reorders the records it keeps |
| Blacklists.RemoveKeepsOrder | test/test_blacklists.py:100-101 | removing a value held by the record at position k leaves the kept records before k followed by the kept records after k |
| YamlTests.CidrListRefusals | test/test_blacklists.py:85-95 | on the CIDR document, the malformed adds, the adds of a value held by an active or a disabled record, and the remove of an absent value all fail |
| YamlTests.CidrListScenario | test/test_blacklists.py:96-101 | adding `1.3.4.5` succeeds; `parse()` then holds `1.2.3.4` and `3.4.5.6` but not the disabled `2.3.4.5`, and drops `3.4.5.6` once it is removed |
| YamlTests.AsnListRefusals | test/test_blacklists.py:118-128 | on the ASN document, the adds of a value held by an active record (bare or as a record) or by a disabled one, the malformed add and the remove of an absent value all fail |
| YamlTests.AsnListScenario | test/test_blacklists.py:129-133 | `parse()` holds `123` and `345` but not the disabled `234`, and drops `345` once it is removed |
| YamlTests.UpperCaseNameHasListedKey | test/test_blacklists.py:154-155 | `EXAMPLE.COM.` has the same duplicate key as `example.com.` |
| YamlTests.NsListParse | test/test_blacklists.py:149-157 | on the nameserver document, `parse()` holds `example.com.` and `example.org.` but neither `EXAMPLE.COM.` nor the disabled `example.net.` |
| YamlTests.NsListScenario | test/test_blacklists.py:152-159 | adding `example.com.` or `EXAMPLE.COM.` fails, as a duplicate whenever the validator accepts the name; removing `example.org.` succeeds and takes it out of `parse()` |
| Text.Split | test/test_blacklists.py:65-66 | every token of a diff listing is a non-empty run of non-whitespace |
| Text.SplitSkipsSpace | test/test_blacklists.py:65-66 | whitespace before a listing starts no token |
| Text.SplitWordThen | test/test_blacklists.py:65-66 | a run of non-whitespace followed by nothing or by whitespace is one whole token |
| Text.SplitDropsTrailingSpace | test/test_blacklists.py:65-66 | whitespace after a listing adds no token |
| Text.SplitIgnoresPadding | test/test_blacklists.py:65-66 | whitespace before and after a listing changes none of its tokens |
| Text.SplitJoinWith | test/test_blacklists.py:65-66 | splitting file names joined by any non-empty run of whitespace (spaces, tabs, newlines) gives the names back |
| Text.SplitListing | test/test_blacklists.py:65-66 | a listing of names joined by whitespace runs, with any whitespace before and after, splits into exactly those names |
| Text.SplitKeepsEveryNonSpace | test/test_blacklists.py:65-66 | the tokens glued back together are exactly the non-whitespace characters of the listing, in order |
| Helpers.FilesChanged | test/test_blacklists.py:63-68 | the diff counts as changed exactly when some whitespace-separated token of it is a file of interest |
| Helpers.FilesChangedOnListing | test/test_blacklists.py:63-68 | on a listing of file names separated by whitespace runs, with any whitespace around it, the diff counts as changed exactly when one of those names is of interest |
| Helpers.RemoteDiffChanged | test/test_blacklists.py:64-67 | `"a c k p"` counts as changed against the files `a` to `g` |
| Helpers.RemoteDiffUnchanged | test/test_blacklists.py:64-68 | `"h j q t"` does not count as changed against the files `a` to `g` |
| NumberLists.CountDigits | test/test_blacklists.py:24 | the digit count is the number of positions of the pattern holding a `\d` character; so it is at most the pattern's length, and zero exactly when no character is a digit |
| NumberLists.CheckList | test/test_blacklists.py:20-39 | walking one list appends, after what was collected before, exactly that list's errors and warnings in line order |
| NumberLists.CheckNumberLists | test/test_blacklists.py:41-51 | the run audits the watched list, then the blacklisted one, and fails exactly when an error was collected, that is exactly when some pattern of either list fails the general grammar |
| NumberLists.FailuresFit | test/test_blacklists.py:21-29 | every error names its list, its 1-based line, the pattern at that line, which fails the general grammar, its digit count and the bounds verdict; errors come in strictly increasing line order |
| NumberLists.FailuresExactly | test/test_blacklists.py:28-29 | a line is reported as an error exactly when its pattern fails the general grammar |
| NumberLists.NoExactsFit | test/test_blacklists.py:30-39 | every warning names its list, its line, the pattern at that line, which passes the general grammar, which anchored grammars it misses (at least one), its digit count and the bounds verdict; warnings come in strictly increasing line order |
| NumberLists.NoExactsExactly | test/test_blacklists.py:30-39 | a line is reported as a warning exactly when its pattern passes the general grammar but misses the start- or end-anchored grammar |
| NumberLists.ErrorOrWarningNotBoth | test/test_blacklists.py:28-39 | no line is reported both as an error and as a warning |
| NumberLists.RejectsIffFailures | test/test_blacklists.py:48-51 | a list yields an error exactly when one of its patterns fails the general grammar; warnings play no part |
| NumberLists.DigitBoundsNeverDecide | test/test_blacklists.py:24-29 | changing the digit-count bounds leaves the errors and warnings the same, apart from each report's bounds verdict |

## Left out

- Writing the YAML documents, `unlink`, and persisting the store back to disk: file I/O. A document here is already its record sequence.
- Reading a document: the `Schema` and `Schema_version` check and the YAML parsing. `blacklists.py` is not part of this model.
- The entry validators for CIDR, ASN and nameserver values. `blacklists.py` is not part of this model, so they are the predicate `Parser.valid`.
- Blacklists.Key: folds only ASCII letters, while Python's `str.lower()` folds all of Unicode. The folding rule is an assumption the tests do not fix.
- The regex engine, its ASCII and Unicode modes, and the `\d` class: abstract predicates in `NumberLists.Regex` and `Grammar.isDigit`.
- `load_blacklists()` and the process-wide `GlobalVars` sets: global state. The audit takes the watched and blacklisted pattern lists as inputs.
- `blacklist_integrity_check`, `test_blacklist_integrity` and `Blacklist.validate()` on the shipped list files: their implementation and data are not part of this model.
- The wording and pluralisation of the printed and failing messages: cosmetic. Reports are structured values.
- The pytest plumbing: `pytest.raises`, `pytest.fail`, `print`.
- All `ValueError`s are one exception type in Python. The model tells them apart by cause.
