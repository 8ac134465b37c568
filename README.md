# pwcli core, modelled in Dafny

pwcli is a terminal tool for reviewing patches. It pulls patches from a
Patchwork tracker, applies them to a git tree, records each decision on the
tracker and mails a reply. This project models two parts of it.

- **The stub git repository** that pwcli's command tests run against
  (`stubs/stubslib.py`), in module `StubGit`:
  - `GitCommit` derives an abbreviated id, a subject with its `[...]` tags
    removed, and a one-line summary.
  - `GitRepository` keeps an index of commit ids, a content-addressed object
    store, a table from branch to commits with head `master`, and a table from
    id to commit.
  - It loads the two tables from the index, appends to the index on
    `add_commit` and `cherry_pick`, and answers `get_branches` and
    `get_config`, which either return a value or raise.
- **The pwcli helpers that the unit tests pin down**:
  - `clean`, `parse_list` and `shrink` (`unittests/test_utils.py`), in
    module `Utils`;
  - the `Patch` attribute getters, `set_state_name` and `get_reply_msg`
    (`unittests/test_patch.py`), in module `Patches`;
  - `Git.get_branch` and `Git.am` with and without dry run
    (`unittests/test_git.py`), in module `GitCli`.

  pwcli's own implementation of these is not part of this model. They are
  modelled from what the tests assert, plus the fewest assumptions that
  make each one total. The assumptions are listed under "Left out".

Supporting modules:
- `Wrappers`: `Option`, `Result` and `Outcome`. A Python call that raises is
  modelled as returning `Err`, `Fail` or `None`.
- `Text`: Python's `str.strip`, `str.split` and `str.join` on ASCII text.

How each kind of code is modelled:
- Stateful objects are classes whose methods state their whole new state:
  `GitRepository`, `Tracker`, `Patch` and `Git`.
- `load_commits` and `get_branches` are loops proved against specification
  functions: `LoadablePrefix`, `CommitsOf` and `LoadInto`, and `Text.Strip`.
- The pure helpers are functions, with lemmas for their properties and for
  every asserted test case.

Two inputs are parameters rather than code:
- the SHA-1 digest of `add_commit` (FIPS 180-4) is the `sha1` field;
- the Subject header that RFC 5322 parsing extracts from an mbox is the
  `subjectOf` argument.

## Model

| member | source | states |
|---|---|---|
| Text.Strip | stubs/stubslib.py:51 | `strip()` removes a whitespace prefix and a whitespace suffix, and what is left neither starts nor ends with whitespace |
| Text.StripUnique | stubs/stubslib.py:51 | any cut of a string into whitespace, a middle without whitespace at its ends, and whitespace, is the cut `strip()` makes |
| Text.StripIdempotent | stubs/stubslib.py:113 | stripping an already stripped entry changes nothing |
| Text.Split | unittests/test_utils.py:48-53 | `split(sep)` yields at least one piece and no piece contains the separator |
| Text.JoinSplit | unittests/test_utils.py:48-53 | joining the pieces of a split with the separator restores the string |
| Text.SplitJoin | unittests/test_utils.py:48-53 | splitting a join of separator-free pieces gives the pieces back |
| StubGit.AbbrevId | stubs/stubslib.py:41 | the abbreviated id is the first 12 characters of the id, or the whole id when it is shorter |
| StubGit.TagMatch | stubs/stubslib.py:50 | a tag match starts at `[` and ends at the last `]` of the first line (a greedy match); there is none when no `]` follows |
| StubGit.RemoveTags | stubs/stubslib.py:50 | deleting the `[`…`]` matches never lengthens the subject |
| StubGit.RemoveTagsLines | stubs/stubslib.py:50 | the deletion works line by line: the text on either side of a newline is cleaned separately, since no match crosses a newline |
| StubGit.UntaggedUnchanged | stubs/stubslib.py:49-50 | a subject in which no `[` is followed by a `]` is left unchanged by the tag removal |
| StubGit.RemoveTagsSingleLine | stubs/stubslib.py:49-50 | on one line, everything from the first `[` through the last `]` is deleted |
| StubGit.Subject | stubs/stubslib.py:44-53 | the subject exists exactly when the mbox has a Subject header (TypeError otherwise); it has no surrounding whitespace and is no longer than the header |
| StubGit.SubjectSingleLine | stubs/stubslib.py:44-53 | a one-line subject is the header with `[`…`]` removed, then stripped |
| StubGit.SubjectUntagged | stubs/stubslib.py:44-53 | a subject with no tag is the header, stripped |
| StubGit.Oneline | stubs/stubslib.py:55-56 | the one-line summary exists exactly when the subject does; its length is the abbreviated id, one space and the subject |
| StubGit.OnelineSplits | stubs/stubslib.py:55-56 | splitting the summary at spaces gives back the abbreviated id first and the subject as the rest |
| StubGit.LoadablePrefix | stubs/stubslib.py:93-96 | the ids read before the first missing object file form a prefix of the index, and all of them have objects |
| StubGit.LoadablePrefixAt | stubs/stubslib.py:93-96 | a prefix whose ids all have objects and that stops at a missing one (or the end) is the loadable prefix |
| StubGit.CommitsOf | stubs/stubslib.py:98-100 | the head branch lists one commit per id read, in index order, each holding its object's text |
| StubGit.LoadIntoTable | stubs/stubslib.py:98-99 | after the load, the commit table's keys are the old keys plus the ids read; each id read maps to its commit; other entries are unchanged |
| StubGit.LoadStep | stubs/stubslib.py:93-100 | reading one more id appends one commit to the branch and sets one table entry |
| StubGit.GitRepository.constructor | stubs/stubslib.py:59-76 | head is `master`, both tables start empty, the files are as given |
| StubGit.GitRepository.Open | stubs/stubslib.py:59-78 | a new repository holds the loaded head branch and commit table; it raises exactly when the index names a missing object |
| StubGit.GitRepository.LoadCommits | stubs/stubslib.py:80-100 | the head branch becomes the commits of the loadable prefix, in order; the table gains exactly those; every head commit is in the table; success exactly when the whole index loads, otherwise an IOError naming the missing object |
| StubGit.GitRepository.LoadedAt | stubs/stubslib.py:80-100 | where the loop stops, what it read is the loadable prefix and each commit read is in the table |
| StubGit.GitRepository.HeadCommits | stubs/stubslib.py:102-103 | every commit of the head branch is the table's entry for its id |
| StubGit.GitRepository.GetBranches | stubs/stubslib.py:105-115 | one entry per line of the branches file, in order, each stripped; IOError when the file is missing |
| StubGit.GitRepository.AddCommit | stubs/stubslib.py:123-135 | the index gains exactly one line at its end, the hash of the buffer, and the buffer is stored under that id; branches and commits are untouched |
| StubGit.AddCommitThenLoad | stubs/stubslib.py:123-135 | loading after `add_commit` gives the old head branch with the new commit at its end |
| StubGit.GitRepository.CherryPick | stubs/stubslib.py:138-144 | an unknown id raises ValueError and leaves the index unchanged; a known id is appended once and no object is written |
| StubGit.CherryPickThenLoad | stubs/stubslib.py:138-144 | loading after a cherry-pick gives the old head branch with the picked commit at its end |
| StubGit.GitRepository.GetConfig | stubs/stubslib.py:146-150 | the stored value when the option exists, ValueError `Config not found` exactly when it does not |
| StubGit.GitRepository.GetConfigFoldsCase | stubs/stubslib.py:146-150 | option names are matched without regard to case |
| Utils.Clean | unittests/test_utils.py:41-42 | `clean` removes leading and trailing whitespace and keeps the inner text as one infix |
| Utils.CleanIdempotent | unittests/test_utils.py:41-42 | cleaning twice is cleaning once |
| Utils.CleanKeepsInner | unittests/test_utils.py:41-42 | whitespace of any kind around a text is removed and the text is kept |
| Utils.CleanExample | unittests/test_utils.py:42 | `clean('\n\t  foo  ')` is `foo` |
| Utils.ParseNat | unittests/test_utils.py:55-60 | a number parses exactly when it is a non-empty string of decimal digits |
| Utils.ParseDecimal | unittests/test_utils.py:47-48 | reading back a number written in decimal gives the number |
| Utils.Range | unittests/test_utils.py:45 | `a-b` stands for every integer from a to b inclusive, ascending |
| Utils.ParseItem | unittests/test_utils.py:55-78 | an item parses exactly when it is a numeral or two numerals joined by one `-`; otherwise it raises |
| Utils.ParseItemDecimal | unittests/test_utils.py:45-53 | `a-b` written in decimal parses to a..b, and `n` to [n] |
| Utils.ParseItems | unittests/test_utils.py:48-53 | a list of items parses exactly when every item does; the numbers are those of all the items |
| Utils.Insert | unittests/test_utils.py:52-53 | adding a number to an ascending duplicate-free list keeps it ascending and duplicate-free and adds exactly that number |
| Utils.Normalize | unittests/test_utils.py:52-53 | the result is ascending and duplicate-free, with the same members as the input |
| Utils.IncreasingUnique | unittests/test_utils.py:52-53 | two ascending duplicate-free lists with the same members are equal |
| Utils.NormalizeIncreasing | unittests/test_utils.py:52-53 | an ascending duplicate-free list is its own normal form |
| Utils.NormalizeSameMembers | unittests/test_utils.py:52-53 | the normal form depends only on which numbers are present |
| Utils.ParseList | unittests/test_utils.py:44-78 | `''` is `[]`; otherwise the list parses exactly when every comma-separated item is well-formed; the result is ascending with no duplicates and holds exactly the numbers the items name |
| Utils.ParseListCanonical | unittests/test_utils.py:52-53 | two lists naming the same numbers parse to the same result, whatever their order or overlap |
| Utils.ParseListIs | unittests/test_utils.py:45-53 | a text that writes out items in decimal, comma-separated, parses to the ascending, duplicate-free list of the numbers they name |
| Utils.ParseRendered | unittests/test_utils.py:45-53 | a list of numbers and ranges written in decimal parses to the sorted, deduplicated numbers they name |
| Utils.ListRejected | unittests/test_utils.py:55-78 | a list with an item that has no `-` and is not a numeral is rejected |
| Utils.ListRejectedRange | unittests/test_utils.py:62-78 | a list with an item `a-b` whose a or b is not a numeral is rejected |
| Utils.ParseListEmpty | unittests/test_utils.py:46 | `parse_list('')` is `[]` |
| Utils.ParseListSingle | unittests/test_utils.py:47 | `parse_list('99')` is `[99]` |
| Utils.ParseListRange | unittests/test_utils.py:45 | `parse_list('1-3')` is `[1, 2, 3]` |
| Utils.ParseListNumbers | unittests/test_utils.py:48 | `parse_list('0,77,7777')` is `[0, 77, 7777]` |
| Utils.ParseListMixed | unittests/test_utils.py:49 | `parse_list('0-3,5')` is `[0, 1, 2, 3, 5]` |
| Utils.ParseListMany | unittests/test_utils.py:50-51 | `parse_list('10,11,12,14-15,16')` is `[10, 11, 12, 14, 15, 16]` |
| Utils.ParseListOverlap | unittests/test_utils.py:52 | `parse_list('0-3,2')` is `[0, 1, 2, 3]` |
| Utils.ParseListOverlapping | unittests/test_utils.py:53 | `parse_list('1-4,0-3,2,1-2')` is `[0, 1, 2, 3, 4]` |
| Utils.ParseListRejectsSpace | unittests/test_utils.py:56-57 | `parse_list('1 2')` raises |
| Utils.ParseListRejectsWord | unittests/test_utils.py:59-60 | `parse_list('foo')` raises |
| Utils.ParseListRejectsWordRange | unittests/test_utils.py:62-63 | `parse_list('foo-bar')` raises |
| Utils.ParseListRejectsWords | unittests/test_utils.py:65-66 | `parse_list('foo,bar')` raises |
| Utils.ParseListRejectsOpenRange | unittests/test_utils.py:68-69 | `parse_list('1-bar')` raises |
| Utils.ParseListRejectsWordAfter | unittests/test_utils.py:71-72 | `parse_list('1,bar')` raises |
| Utils.ParseListRejectsWordBefore | unittests/test_utils.py:74-75 | `parse_list('bar,2')` raises |
| Utils.ParseListRejectsRangeFromWord | unittests/test_utils.py:77-78 | `parse_list('bar-2')` raises |
| Utils.PyPrefix | unittests/test_utils.py:83 | `s[:n]` is a prefix of s, of length n capped at the length of s when n is not negative |
| Utils.Shrink | unittests/test_utils.py:80-92 | a string that fits is kept; without ellipsis it is cut to its first n characters; with ellipsis and n > 3 the result has length n, is the first n-3 characters followed by `...`, and a space just before the `...` is shown as `.`; with ellipsis and n ≤ 3 it is empty |
| Utils.ShrinkExamples | unittests/test_utils.py:82-92 | the seven asserted cases of `shrink`, including widths 3, 0 and -10 |
| Patches.Tracker.constructor | unittests/test_patch.py:62 | the tracker answers state ids with the given function and has received no update |
| Patches.Tracker.PatchSetCall | unittests/test_patch.py:66 | `patch_set` records exactly one update, after all earlier ones |
| Patches.Find | unittests/test_patch.py:56-60 | a getter returns the attribute stored under its key, and nothing when the key is missing |
| Patches.Patch.constructor | unittests/test_patch.py:54-60 | each getter returns the constructor's attribute of that name unchanged |
| Patches.Patch.GetName | unittests/test_patch.py:56 | the `name` attribute, present exactly when the patch has one |
| Patches.Patch.GetId | unittests/test_patch.py:57 | the `id` attribute, present exactly when the patch has one |
| Patches.Patch.GetDelegate | unittests/test_patch.py:58 | the `delegate` attribute, present exactly when the patch has one |
| Patches.Patch.GetStateId | unittests/test_patch.py:59 | the `state_id` attribute, present exactly when the patch has one |
| Patches.Patch.GetStateName | unittests/test_patch.py:60 | the `state` attribute, present exactly when the patch has one |
| Patches.Patch.SetStateName | unittests/test_patch.py:62-66 | the state name becomes n and the state id the tracker's id for n; the other attributes are kept; exactly one update `{'state': id}` is sent, for the patch's own id; a patch without an id raises and nothing changes |
| Patches.AttributesScenario | unittests/test_patch.py:51-66 | the test's getters, state change and single tracker update |
| Patches.FormatAddress | unittests/test_patch.py:76 | the From text starts with the operator's name and a space and `<`, and stands for the operator's email |
| Patches.LastIndex | unittests/test_patch.py:76 | the position of the last occurrence of a character, none exactly when it does not occur |
| Patches.ParseAddress | unittests/test_patch.py:76 | an address that parses is `name <email>` rebuilt from its parts |
| Patches.AddressRoundTrip | unittests/test_patch.py:74-76 | parsing a formatted `name <email>` gives back the name and the email |
| Patches.EmailOf | unittests/test_patch.py:78 | when the text ends in `>` with a `<` before it, the email is what sits between the last such `<` and that `>` (holding no `<`); otherwise it is the whole text |
| Patches.BracketedEmail | unittests/test_patch.py:78 | an entry ending in `<email>` stands for that email, whatever name or spacing comes before it |
| Patches.BareEmail | unittests/test_patch.py:78 | a bare email that does not end in `>` stands for itself |
| Patches.AddressOf | unittests/test_patch.py:78 | the address a Cc entry stands for is the email of its text with the surrounding whitespace removed |
| Patches.CcEntries | unittests/test_patch.py:78 | the Cc entries are the comma-free pieces that, joined with commas, give back the header |
| Patches.WithoutSelf | unittests/test_patch.py:78 | the kept Cc entries are exactly those whose email is not the operator's |
| Patches.WithoutSelfAppend | unittests/test_patch.py:78 | filtering a list of entries filters each part in place, so order and repeated entries are kept |
| Patches.WithoutSelfOne | unittests/test_patch.py:78 | a single entry is kept exactly when it does not stand for the operator |
| Patches.HeadersOf | unittests/test_patch.py:72 | a parsed mail's headers: a name is present exactly when some field has that name in some case, and its value is the first such field's |
| Patches.Get | unittests/test_patch.py:72-79 | `msg[name]` finds the header stored under the lower-cased name, and nothing when there is none |
| Patches.GetFoldsCase | unittests/test_patch.py:72-79 | a header name spelled in any case finds the same header as its lower-case form |
| Patches.GetField | unittests/test_patch.py:72-79 | in a parsed mail, a header is found exactly when some field has its name in some case, and then it is the first such field |
| Patches.ReplyCc | unittests/test_patch.py:78 | the reply has a Cc exactly when the original has a Cc header under any case of its name, holding that header's entries except the operator's own address |
| Patches.ReplyCcFromField | unittests/test_patch.py:72-78 | the reply's Cc is made from the first field named Cc in any case, less the operator's own address |
| Patches.ReplyUpperCaseCc | unittests/test_patch.py:72-78 | a mail whose Cc header is written `CC:` gets a reply with a Cc |
| Patches.ReplySubject | unittests/test_patch.py:79 | the reply subject is `Re: ` followed by the original subject, unchanged |
| Patches.ReplyMsg | unittests/test_patch.py:68-79 | From is the operator as `name <email>`; To is the original From verbatim; Subject is `Re: ` and the original subject; a Cc exactly when the original has one; headers are found whatever the case of their names; it fails exactly when the original lacks From or Subject |
| Patches.ReplyDropsSelf | unittests/test_patch.py:78 | a Cc entry written `Name <email>`, `Name<email>`, `<email>` or as the bare email, with any whitespace around it, is not in the reply's Cc |
| Patches.ReplyFromRoundTrip | unittests/test_patch.py:76 | the reply's From reads back as the operator's name and email |
| Patches.ReplyWithoutCc | unittests/test_patch.py:68-79 | a mail with From and Subject but no Cc gets a reply from the operator to the original sender, with no Cc and the subject prefixed by `Re: ` |
| Patches.ReplyExample | unittests/test_patch.py:68-79 | the test mail (its nine headers as the test builds them, under lower-cased names) gives From `Timo Testi <test@example.com>`, To `Dino Dinosaurus <dino@example.com>`, no Cc, Subject `Re: [1/7] foo` |
| GitCli.FirstMarkedIndex | unittests/test_git.py:67-78 | the position of the first line marked `* `, none exactly when no line is marked |
| GitCli.FirstMarkedIndexIs | unittests/test_git.py:67-78 | the first marked line is the one that is marked with no marked line before it |
| GitCli.FirstMarked | unittests/test_git.py:67-78 | a branch is found exactly when some line is marked, and it is that first marked line without its marker |
| GitCli.GetBranch | unittests/test_git.py:67-78 | the current branch is the first `* ` line of the output, without the marker; there is one whenever a line is marked |
| GitCli.UnmarkedBefore | unittests/test_git.py:68-71 | unmarked lines before the current branch do not change the answer |
| GitCli.AnythingAfter | unittests/test_git.py:71-72 | lines after the current branch do not change the answer |
| GitCli.CurrentAmongOthers | unittests/test_git.py:67-78 | unmarked branches, the current one, then more branches: the answer is the current one |
| GitCli.GetBranchExample | unittests/test_git.py:67-78 | the test's listing gives `foo` |
| GitCli.Git.constructor | unittests/test_git.py:75 | the dry-run flag is as given and nothing has been applied |
| GitCli.Git.Am | unittests/test_git.py:80-94 | without dry run the mbox is handed to the repository exactly as given; with dry run nothing is recorded |
| GitCli.AmScenario | unittests/test_git.py:80-87 | the repository received exactly the test mbox |
| GitCli.AmDryRunScenario | unittests/test_git.py:89-94 | the repository received nothing |

## Left out

- Files and processes: the stub reads and writes files under its git
  directory. The model keeps the file contents as fields: the index
  `objects/commits` as its lines, the objects as a map, and the branches file
  as an optional list of lines. A missing index file reads as no lines, which
  is what `load_commits` does when it returns early.
- The index at byte level: `add_commit` and `cherry_pick` each append one
  newline-terminated line. The model appends one element to the list of
  lines. It does not model a file whose last line lacks a newline.
- `os.mkdir` of the objects directory in `add_commit`: it has no effect the
  model can observe.
- `is_conflict_enabled` and `remove_conflict_file`: bare filesystem checks
  and deletion.
- SHA-1 and RFC 5322 header parsing are parameters, as described above.
  The reply is built from an already parsed header map keyed by lower-cased
  name; Patches.HeadersOf builds one from the mail's fields in order.
- StubGit.Subject: a header folded over several lines is handled as Python's
  `.` handles newlines (a tag match never crosses one). The model does not
  unfold headers.
- StubGit.GitRepository.GetConfig: RawConfigParser's DEFAULT section is not
  modelled. The option table is a map keyed by section and
  lower-case option name.
- Utils.Clean: whitespace inside the text is kept; the test does not say
  what clean does with it.
- Utils.Clean: whitespace is space, tab, newline, carriage return, vertical
  tab and form feed. Under Python 3, which runs unittests/test_utils.py,
  `str.strip()` also removes `\x1c`–`\x1f`, `\x85` and the other Unicode
  whitespace characters. Those are not modelled.
- Text.Strip: the same six whitespace characters, for the stub's `strip()`
  calls as well.
- Utils.ParseList: the implementation is not part of this model, so a few
  choices are made where the tests are silent:
  - digits are ASCII only; a sign or surrounding spaces, which Python's
    `int()` accepts, make the item malformed;
  - a reversed range `5-3` names no numbers;
  - any malformed item is a ValueError naming that item.
- Utils.Shrink: the implementation is not part of this model, so two choices
  are made where the tests are silent:
  - a string that fits in the width is returned unchanged;
  - without ellipsis, a negative width follows Python's `s[:n]`.
- Utils.Shrink: `ellipsis` has no default value. unittests/test_utils.py:82
  calls `shrink` without it, relying on the default `True`; Utils.ShrinkExamples
  passes `true` explicitly for that case.
- Patches.ReplyMsg:
  - the implementation is not part of this model;
  - a missing From or Subject header is modelled as an error;
  - Cc entries are compared with the operator's address exactly, not
    case-insensitively;
  - MIME encoding, signatures and the body are not modelled;
  - a reply has a Cc header exactly when the original has one;
    unittests/test_patch.py:78 asserts that a reply to a mail without Cc has
    none.
- Patches.ReplyCc: the Cc header is split at every `,`. A quoted display name
  that contains a comma (`"Doe, Jane" <jane@example.com>`) becomes two
  entries. Dropping the operator's own address is a modelling choice: no
  test has a Cc header to filter.
- Patches.Patch.SetStateName: a patch without an `id` attribute raises
  KeyError before the tracker is asked for the state id and before any
  attribute changes. The tests only set the state of a patch that has an id.
- StubGit.GitRepository.Open: when `__init__` raises IOError in
  `load_commits`, Python hands back no object. The model returns the
  repository anyway, holding the partial load, together with the error.
- Patches.Patch.constructor: the third constructor argument of `Patch` (False
  in the tests) is not modelled.
- GitCli.GetBranch: `git branch` runs in a subprocess; the model takes its
  output as text. The output callback passed to `Git` is not modelled.
- GitCli.GetBranch: when no line is marked the result is None. The output is
  split at `\n` only, as `str.split('\n')` does, not as `splitlines()`: a
  `\r` before a line break stays in the branch name.
- GitCli.Git.Am: `git am` never fails in the model. A conflict or a non-zero
  exit status is not modelled; recording the mailbox is the whole effect.
- `get_age` (unittests/test_utils.py:94-112): it depends on the wall clock,
  `datetime` and an environment variable, and the tests do not fix its month
  and year thresholds.
- stubs/stubs.py, stubs/rest-test-1.py, cmdtests/cmdtestlib.py and
  unittests/test_runprocess.py: process control, HTTP and terminal harnesses
  that are not part of this model.
