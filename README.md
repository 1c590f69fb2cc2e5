# autohooks pre-commit hook identity, in Dafny

This project models how autohooks recognises and rewrites the git pre-commit
hook it installs (`PreCommitHook` in `autohooks/hooks.py`). The hook file's
text decides four things:

- whether the hook is autohooks' own: more than five lines, and the substring
  `autohooks.precommit` somewhere in the text;
- which mode the hook was written for (`read_mode`). The first line, without its
  first two characters, is compared exactly with the plain python3 shebang,
  then as a prefix with the poetry shebang, then exactly with the pipenv
  shebang. Failing those, the candidate is joined with the next four lines and
  compared with the two five-line headers (poetry first, then pipenv). An
  empty first line gives `UNDEFINED`, and no match gives `UNKNOWN`;
- the version of the hook (`read_version`): the number in the leftmost
  `{ version = N }` marker that closes a line, or -1 when there is none;
- whether the hook is current: its version equals the template version.

`write` renders the template for a mode and stores it at the hook path with
permission bits 775. It then drops the cached content with `del`, so the next
read sees the new file. When the content was never read, that `del` of a
`functools.cached_property` raises `AttributeError`, after the file has been
written and its bits set; `Write` reports this as its `raised` result.

Files:

- `wrappers.dfy` holds `Option`.
- `strings.dfy` (module `Strings`) holds Python's `split("\n")`, `"\n".join`,
  `startswith` and `in`, with their round trips. `LineEnd` gives the position
  where line k ends, so the line rules can be stated without splitting.
- `version_pattern.dfy` (module `VersionPattern`) holds the version regular
  expression, written out as a matcher at one position (`MatchAt`) and a
  leftmost search (`Search`). Both are proved to accept exactly the
  occurrences described by the declarative `MarkerIn`.
- `hooks.dfy` (module `Hooks`) holds the pure classifiers, their properties,
  and the `PreCommitHook` class. The class has the hook path, the shared file
  system and the content cache as fields.

The template (the five shebang constants, `TEMPLATE_VERSION` and the renderer)
lives in `autohooks/template.py`, which this model leaves out. Its constants are the fields of a `Template` value, and the renderer is
a function `render: Mode -> string` given to the hook object. Every property
therefore holds for all values of those constants. The round trip
`read_mode(render(M)) == M` is proved for any hook text made of a
two-character prefix, the header of M, a body and the version marker
(`HeaderRoundTrip`, `RenderedHookReadsBack`). This needs the headers to be
distinguishable (`Distinguishable`). Whether the real renderer produces text
of that shape is not visible here.

The default hook path (the git hook directory plus `pre-commit`) is a
constructor parameter. The file system is a `FileSystem` object shared by hook
objects: a map from path to text and permission bits. A write to a new file
gives it the bits `createPermissions` (whatever the umask allows). A write to
an existing file keeps that file's bits.

## Model

| member | source | states |
|---|---|---|
| Strings.Split | autohooks/hooks.py:56 | `split("\n")` always yields one piece more than there are newlines, and no piece contains a newline (so empty text gives one empty piece) |
| Strings.Join | autohooks/hooks.py:69 | `"\n".join` of newline-free pieces has exactly one newline fewer than there are pieces (none for an empty list); `JoinSplit` and `SplitJoin` make it the inverse of `split` |
| Strings.StartsWith | autohooks/hooks.py:64 | `s.startswith(prefix)` iff `prefix` is no longer than `s` and agrees with it character by character |
| Strings.JoinSplit | autohooks/hooks.py:56 | joining the pieces of a split with newlines gives back the text |
| Strings.SplitJoin | autohooks/hooks.py:69 | splitting newline-free pieces joined by newlines gives back the pieces |
| Strings.SplitAppend | autohooks/hooks.py:56 | splitting `a + "\n" + b` gives the pieces of `a` followed by those of `b` |
| Strings.LineEnd | autohooks/hooks.py:56-57 | the end of line k is a newline or the end of the text, and exactly min(k-1, all newlines) newlines come before it; line 1 ends no later than any later line |
| Strings.JoinFirstLines | autohooks/hooks.py:69 | the first k pieces of a split, joined again, are the text up to the end of line k |
| Strings.FirstPiece | autohooks/hooks.py:57 | `lines[0]` is the text before the first newline |
| Strings.ContainsFrom | autohooks/hooks.py:50 | the substring test from a start index is true iff the substring occurs at some later index |
| Strings.Contains | autohooks/hooks.py:50 | Python's `sub in s` is true iff `sub` occurs at some index of `s` |
| VersionPattern.SkipSpaces | autohooks/hooks.py:22 | a greedy `\s*` stops at the first non-whitespace character, and everything it skipped is whitespace |
| VersionPattern.SkipDigits | autohooks/hooks.py:22 | a greedy `\d+` run stops at the first non-digit, and everything it skipped is a digit |
| VersionPattern.MarkerIn | autohooks/hooks.py:22 | the declarative shape of a match: `{`, whitespace, `version`, whitespace, `=`, whitespace, a non-empty digit run, whitespace, `}`, then end of text or a newline; `MatchAtSound` and `MatchAtComplete` tie it to the matcher |
| VersionPattern.MatchAt | autohooks/hooks.py:22 | a match at a position yields a non-empty digit group after that position |
| VersionPattern.MatchAtSound | autohooks/hooks.py:22 | every match the matcher reports is a marker `{ ws version ws = ws digits ws }` followed by end of text or a newline |
| VersionPattern.MatchAtComplete | autohooks/hooks.py:22 | every such marker is matched at its `{`, with its digits as the group |
| VersionPattern.FindMarker | autohooks/hooks.py:22 | the search returns the leftmost matching position, and nothing matches when it returns None |
| VersionPattern.Search | autohooks/hooks.py:22 | the group found by the search is a non-empty run of digits inside the text |
| VersionPattern.SearchAbsent | autohooks/hooks.py:78-80 | the search finds nothing exactly when the text holds no marker |
| VersionPattern.SearchLeftmost | autohooks/hooks.py:78-81 | a search result is the digit group of a marker that starts no later than any other marker |
| VersionPattern.DecimalValue | autohooks/hooks.py:81 | `int` of a run of k digits (leading zeros allowed) is below 10^k; `DecimalRoundTrip` makes it the inverse of `DecimalString` |
| VersionPattern.DecimalString | autohooks/hooks.py:81 | the decimal form of a number is a non-empty run of digits |
| VersionPattern.DecimalRoundTrip | autohooks/hooks.py:81 | `int` of the decimal form of a number is that number |
| VersionPattern.VersionMarkerLayout | autohooks/hooks.py:22 | where the brace, the word `version`, the `=`, the digits and the closing brace sit in `{ version = N }` |
| VersionPattern.VersionMarkerIn | autohooks/hooks.py:22 | `{ version = N }` at the end of the text or before a newline is a marker whose digits are those of N |
| VersionPattern.SearchMarkedText | autohooks/hooks.py:22 | with no `{` before it, that marker is the one the search finds |
| Hooks.ReadVersionOf | autohooks/hooks.py:77-81 | the version is -1 or a natural number |
| Hooks.IsAutohooksContent | autohooks/hooks.py:47-50 | a hook is autohooks' own iff it has at least five newlines and the marker substring occurs in it |
| Hooks.IsCurrentContent | autohooks/hooks.py:52-53 | a template version below -1 is never current, and a version of -1 would count exactly the texts without a marker as current; `NoMarkerIsNotCurrent` and `MarkedTextCurrency` cover non-negative versions |
| Hooks.DropTwo | autohooks/hooks.py:60 | `line[2:]` is the line from its third character on, and empty for a line shorter than two characters |
| Hooks.CandidateShebang | autohooks/hooks.py:56-60 | the candidate shebang holds no newline |
| Hooks.MultilineShebang | autohooks/hooks.py:69 | the joined block spans the first five lines of the text, or all of them when there are fewer: it holds min(newlines of the text, 4) newlines |
| Hooks.ReadModeOf | autohooks/hooks.py:55-75 | the mode is UNDEFINED exactly when the text is empty or starts with a newline; `ReadModeRules` states every other mode |
| Hooks.CandidateShebangIsFirstLineTail | autohooks/hooks.py:60 | the candidate shebang is the text before the first newline without its first two characters, whatever they are, and holds no newline |
| Hooks.ShortFirstLine | autohooks/hooks.py:57-60 | a first line of one or two characters gives an empty candidate and never UNDEFINED |
| Hooks.SingleLineModeDecides | autohooks/hooks.py:62-67 | a first line that selects PYTHONPATH, POETRY or PIPENV decides the mode whatever lines follow it |
| Hooks.MultilineShebangIsHeaderBlock | autohooks/hooks.py:69 | the multi-line candidate is the candidate followed by the text from the end of line 1 to the end of line 5 |
| Hooks.ReadModeRules | autohooks/hooks.py:55-75 | each mode other than UNDEFINED, stated on text positions: the exact/prefix/exact single-line rules in order, then exact equality of the five-line block with the poetry and then the pipenv header, else UNKNOWN |
| Hooks.HeaderRoundTrip | autohooks/hooks.py:55-75 | a hook starting with a two-character prefix and the header of mode M reads as M, for any template whose headers are distinguishable |
| Hooks.RenderedHookReadsBack | autohooks/hooks.py:52-81 | a hook made of prefix, header of M, a body without `{` and the template's version marker reads as M and is current |
| Hooks.ReadVersionAbsent | autohooks/hooks.py:77-80 | the version is -1 exactly when the text holds no marker |
| Hooks.ReadVersionLeftmost | autohooks/hooks.py:77-81 | otherwise it is the decimal value of the digits of the leftmost marker |
| Hooks.NoBraceNoVersion | autohooks/hooks.py:77-80 | text without `{` has version -1 |
| Hooks.ReadVersionOfMarkedText | autohooks/hooks.py:77-81 | text ending with `{ version = N }` (or with it before a newline) and no earlier `{` has version N |
| Hooks.MarkerAloneNotOwned | autohooks/hooks.py:47-50 | the marker substring on one line is not enough for ownership |
| Hooks.LinesAloneNotOwned | autohooks/hooks.py:47-50 | six lines without the marker are not enough for ownership |
| Hooks.LinesAndMarkerOwned | autohooks/hooks.py:47-50 | five newlines followed by the marker are enough for ownership |
| Hooks.OwnershipKeptByAppending | autohooks/hooks.py:47-50 | appending text to an own hook keeps it an own hook |
| Hooks.NoMarkerIsNotCurrent | autohooks/hooks.py:52-53 | with a non-negative template version, text without a marker is never current |
| Hooks.MarkedTextCurrency | autohooks/hooks.py:52-53 | text ending with the marker for N is current iff N is the template version |
| Hooks.FileSystem.Exists | autohooks/hooks.py:45 | a path exists iff the file map holds it |
| Hooks.FileSystem.ReadText | autohooks/hooks.py:38 | reading yields the file's text |
| Hooks.FileSystem.WriteText | autohooks/hooks.py:87 | writing sets the file's text, keeps an existing file's permission bits, creates a new one with the creation bits, and leaves every other path as it was |
| Hooks.FileSystem.Chmod | autohooks/hooks.py:88 | chmod sets the file's permission bits and nothing else |
| Hooks.PreCommitHook.constructor | autohooks/hooks.py:32-34 | an explicitly given path is kept, otherwise the default path is used; the cache starts empty |
| Hooks.PreCommitHook.Exists | autohooks/hooks.py:44-45 | true iff the hook path is in the file system, and the cache is not touched |
| Hooks.PreCommitHook.PreCommitHookContent | autohooks/hooks.py:36-38 | the first read loads the file into the cache, later reads return the cached text |
| Hooks.PreCommitHook.IsAutohooksPreCommitHook | autohooks/hooks.py:47-50 | the ownership test on the content the hook reads (cached or loaded) |
| Hooks.PreCommitHook.IsCurrentAutohooksPreCommitHook | autohooks/hooks.py:52-53 | the version of that content equals the template version |
| Hooks.PreCommitHook.ReadMode | autohooks/hooks.py:55-75 | the mode of that content |
| Hooks.PreCommitHook.ReadVersion | autohooks/hooks.py:77-81 | the version of that content |
| Hooks.PreCommitHook.Write | autohooks/hooks.py:83-90 | the hook path holds the rendered template with bits 775, no other path changes, the cache is empty, and the next read yields the rendered text; the `del` raises exactly when the content had not been read |
| Hooks.WriteThenInspect | autohooks/hooks.py:83-90 | after a write, whether it returned or raised, mode, version and currency come from the newly rendered text, never from content cached before; it raised exactly when the hook had not been read |
| Hooks.WriteLeavesOtherCache | autohooks/hooks.py:36-38 | a write through one hook object leaves another object on the same path answering from its old cached text; the write raised exactly when the writing object had not been read |

## Left out

- The default hook path comes from `get_git_hook_directory_path()` plus `pre-commit` (autohooks/hooks.py:25-26). It is a constructor parameter, because the repository locator is not part of this model.
- The template module autohooks/template.py is not part of this model. The shebang constants, `TEMPLATE_VERSION` and `PreCommitTemplate.render` are parameters. So `read_mode(render(M)) == M` is proved only for hook text of the shape described above, under `Distinguishable`.
- `Mode` comes from autohooks/settings.py, which is not part of this model. Its seven values are a datatype here.
- Reading a missing file raises an error in the source. Content reads here require that the content is cached or the file exists (`Readable`), so the error path is not modelled. Errors from writing, such as a missing directory, a denied permission or a full disk, are left out too. The file system is a flat map with no directories.
- The real operating-system effects of `read_text`, `write_text` and `chmod` become map updates, and concurrent access is not modelled.
- `\s` and `\d` match only ASCII whitespace and ASCII digits, not the full Unicode classes Python uses for `str` patterns.
- Two things about `pre_commit_hook_path` are not modelled: the class attribute evaluated at import time (autohooks/hooks.py:30), and the lazily computed default (autohooks/hooks.py:40-42). Only their effective result is modelled: the explicit path if one is given, else the default. A `Path` is always truthy, so only a missing argument falls back to the default.
- `Hook` and `cached_property` are used at autohooks/hooks.py:29 and :36 but never imported. The model assumes the intended base class and `functools.cached_property`, whose `del` on a value never loaded raises `AttributeError` (modelled by `Write`'s `raised` result).
- `__str__` (autohooks/hooks.py:92-93) only formats the path and is left out.
- The command-line entry point autohooks/cli/__init__.py only parses arguments and dispatches to the installer, so it is left out.
