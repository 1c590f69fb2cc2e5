/**
 The pre-commit hook of autohooks: how an installed hook script is recognised
 as autohooks' own, which mode it was written for, whether it carries the
 current template version, and how a new one is written.

 The template module (the shebang constants, TEMPLATE_VERSION and the
 renderer) is not part of this model: its constants are the fields of a
 `Template` value and the renderer is a function the hook object is given,
 so every property below holds whatever those constants are.
 */
module Hooks {
  import opened Wrappers
  import opened Strings
  import VersionPattern

  /** How an installed hook finds its Python environment. */
  datatype Mode =
    | Undefined
    | Pythonpath
    | Poetry
    | PoetryMultiline
    | Pipenv
    | PipenvMultiline
    | Unknown

  /**
   The constants of the hook template: the three single-line shebangs (the
   text after the `#!` of the first line), the two five-line headers, and
   the template version.
   */
  datatype Template = Template(
    python3Shebang: string,
    poetryShebang: string,
    pipenvShebang: string,
    poetryMultilineShebang: string,
    pipenvMultilineShebang: string,
    version: int)

  /** The substring that marks a hook script as autohooks' own. */
  const PrecommitMarker: string := "autohooks.precommit"

  /** Python's `line[2:]`: the line without its first two characters, empty when shorter. */
  function DropTwo(line: string): (r: string)
    ensures |r| == if |line| >= 2 then |line| - 2 else 0
    ensures forall k :: 0 <= k < |r| ==> r[k] == line[k + 2]
  {
    if |line| >= 2 then line[2..] else ""
  }

  /** The candidate shebang: the first line of the content without its first two characters. */
  function CandidateShebang(content: string): (r: string)
    ensures '\n' !in r
  {
    DropTwo(Split(content)[0])
  }

  /**
   The candidate shebang joined by newlines with at most the next four lines:
   it spans the first five lines, or all of them when there are fewer.
   */
  function MultilineShebang(content: string): (r: string)
    ensures NewlineCount(r) == if NewlineCount(content) < 4 then NewlineCount(content) else 4
  {
    var lines := Split(content);
    var block := [CandidateShebang(content)] + lines[1..if |lines| < 5 then |lines| else 5];
    assert forall i :: 0 <= i < |block| ==> '\n' !in block[i] by {
      forall i | 0 <= i < |block| ensures '\n' !in block[i] {
        if i > 0 {
          assert block[i] == lines[i];
        }
      }
    }
    Join(block)
  }

  /**
   `read_mode` on the given content. It is UNDEFINED exactly when the text
   before the first newline is empty; `ReadModeRules` states the other modes.
   */
  function ReadModeOf(t: Template, content: string): (r: Mode)
    ensures r == Undefined <==> (content == [] || content[0] == '\n')
  {
    FirstPiece(content);
    var lines := Split(content);
    if |lines| == 0 || lines[0] == "" then Undefined
    else
      var shebang := CandidateShebang(content);
      if shebang == t.python3Shebang then Pythonpath
      else if StartsWith(shebang, t.poetryShebang) then Poetry
      else if shebang == t.pipenvShebang then Pipenv
      else
        var multiline := MultilineShebang(content);
        if multiline == t.poetryMultilineShebang then PoetryMultiline
        else if multiline == t.pipenvMultilineShebang then PipenvMultiline
        else Unknown
  }

  /** `read_version` on the given content: the marker's number, or -1 when there is none. */
  function ReadVersionOf(content: string): (v: int)
    ensures v >= -1
  {
    match VersionPattern.Search(content)
    case None => -1
    case Some(span) =>
      var digits := content[span.start..span.end];
      assert forall k :: 0 <= k < |digits| ==> digits[k] == content[span.start + k];
      VersionPattern.DecimalValue(digits)
  }

  /**
   `is_autohooks_pre_commit_hook` on the given content: more than five lines
   (at least five newlines) and the marker substring somewhere in the text.
   */
  function IsAutohooksContent(content: string): (b: bool)
    ensures b <==> NewlineCount(content) >= 5 &&
                   exists i :: 0 <= i <= |content| && OccursAt(content, PrecommitMarker, i)
  {
    |Split(content)| > 5 && Contains(content, PrecommitMarker)
  }

  /**
   `is_current_autohooks_pre_commit_hook` on the given content. A template
   version below -1 is never matched, and a version of -1 would be matched
   exactly by the texts without a marker, since -1 is also the answer for those.
   */
  function IsCurrentContent(t: Template, content: string): (b: bool)
    ensures t.version < -1 ==> !b
    ensures t.version == -1 ==> (b <==> forall m :: !VersionPattern.MarkerIn(content, m))
  {
    ReadVersionAbsent(content);
    ReadVersionOf(content) == t.version
  }

  // ---------------------------------------------------------------------------
  // read_mode

  /** The first line is the text before the first newline; the candidate drops two characters of it. */
  lemma CandidateShebangIsFirstLineTail(content: string)
    ensures var e := LineEnd(content, 1);
            CandidateShebang(content) == content[if e >= 2 then 2 else e..e]
    ensures '\n' !in CandidateShebang(content)
  {
    FirstPiece(content);
    var e := LineEnd(content, 1);
    if e >= 2 {
      assert content[..e][2..] == content[2..e];
    }
  }

  /**
   A first line of one or two characters gives an empty candidate shebang,
   not UNDEFINED.
   */
  lemma ShortFirstLine(t: Template, content: string)
    requires 1 <= LineEnd(content, 1) <= 2
    ensures CandidateShebang(content) == ""
    ensures ReadModeOf(t, content) != Undefined
  {
    FirstPiece(content);
  }

  /**
   A first line that selects a single-line mode decides the mode whatever
   the following lines hold.
   */
  lemma SingleLineModeDecides(t: Template, line: string, rest: string)
    requires '\n' !in line
    requires ReadModeOf(t, line) in {Pythonpath, Poetry, Pipenv}
    ensures ReadModeOf(t, line + "\n" + rest) == ReadModeOf(t, line)
  {
    SplitLine(line, rest);
    SplitNoNewline(line);
  }

  /** Joining `[a] + more` puts `a` in front of the join of `[""] + more`. */
  lemma JoinHead(a: string, more: seq<string>)
    ensures Join([a] + more) == a + Join([""] + more)
  {
    assert ([a] + more)[1..] == more;
    assert ([""] + more)[1..] == more;
  }

  /**
   The multi-line candidate is the candidate shebang followed by the text of
   the content from the end of the first line to the end of the fifth.
   */
  lemma MultilineShebangIsHeaderBlock(content: string)
    ensures MultilineShebang(content) ==
            CandidateShebang(content) + content[LineEnd(content, 1)..LineEnd(content, 5)]
  {
    var lines := Split(content);
    var m := if |lines| < 5 then |lines| else 5;
    var e1, e5 := LineEnd(content, 1), LineEnd(content, 5);
    FirstPiece(content);
    JoinFirstLines(content, 5);
    assert lines[..m] == [lines[0]] + lines[1..m];
    JoinHead(lines[0], lines[1..m]);
    JoinHead(CandidateShebang(content), lines[1..m]);
    var block := Join([""] + lines[1..m]);
    assert content[..e5] == content[..e1] + block;
    assert e1 <= e5;
    assert content[..e5] == content[..e1] + content[e1..e5];
  }

  /**
   `read_mode` without lines and joins: with `e` the end of the first line,
   `cand` the first line without its first two characters and `block` the
   candidate followed by the text up to the end of the fifth line, the rules
   are tried in the order PYTHONPATH (exact), POETRY (prefix), PIPENV (exact),
   POETRY_MULTILINE (exact), PIPENV_MULTILINE (exact), and UNKNOWN is left.
   */
  lemma ReadModeRules(t: Template, content: string)
    ensures var e := LineEnd(content, 1);
            var cand := content[if e >= 2 then 2 else e..e];
            var block := cand + content[e..LineEnd(content, 5)];
            var single := cand == t.python3Shebang || StartsWith(cand, t.poetryShebang) || cand == t.pipenvShebang;
            && (ReadModeOf(t, content) == Pythonpath <==> e > 0 && cand == t.python3Shebang)
            && (ReadModeOf(t, content) == Poetry <==>
                  e > 0 && cand != t.python3Shebang && StartsWith(cand, t.poetryShebang))
            && (ReadModeOf(t, content) == Pipenv <==>
                  e > 0 && cand != t.python3Shebang && !StartsWith(cand, t.poetryShebang) && cand == t.pipenvShebang)
            && (ReadModeOf(t, content) == PoetryMultiline <==>
                  e > 0 && !single && block == t.poetryMultilineShebang)
            && (ReadModeOf(t, content) == PipenvMultiline <==>
                  e > 0 && !single && block != t.poetryMultilineShebang && block == t.pipenvMultilineShebang)
            && (ReadModeOf(t, content) == Unknown <==>
                  e > 0 && !single && block != t.poetryMultilineShebang && block != t.pipenvMultilineShebang)
  {
    FirstPiece(content);
    CandidateShebangIsFirstLineTail(content);
    MultilineShebangIsHeaderBlock(content);
  }

  /** The header text the template writes after the two-character prefix for a mode. */
  function Header(t: Template, mode: Mode): string
    requires mode != Undefined && mode != Unknown
  {
    match mode
    case Pythonpath => t.python3Shebang
    case Poetry => t.poetryShebang
    case Pipenv => t.pipenvShebang
    case PoetryMultiline => t.poetryMultilineShebang
    case PipenvMultiline => t.pipenvMultilineShebang
  }

  /** The first line of a multi-line header selects none of the single-line modes. */
  predicate NotSingleLine(t: Template, first: string)
  {
    first != t.python3Shebang && !StartsWith(first, t.poetryShebang) && first != t.pipenvShebang
  }

  /**
   What the template's headers must satisfy for `read_mode` to tell them
   apart: single-line headers hold no newline and are not caught by an
   earlier rule; multi-line headers span exactly five lines, their first line
   is caught by no single-line rule, and the two differ.
   */
  predicate Distinguishable(t: Template)
  {
    && '\n' !in t.python3Shebang && '\n' !in t.poetryShebang && '\n' !in t.pipenvShebang
    && t.poetryShebang != t.python3Shebang
    && t.pipenvShebang != t.python3Shebang && !StartsWith(t.pipenvShebang, t.poetryShebang)
    && NewlineCount(t.poetryMultilineShebang) == 4
    && NotSingleLine(t, Split(t.poetryMultilineShebang)[0])
    && NewlineCount(t.pipenvMultilineShebang) == 4
    && NotSingleLine(t, Split(t.pipenvMultilineShebang)[0])
    && t.pipenvMultilineShebang != t.poetryMultilineShebang
  }

  /**
   Round trip of the header: a hook that starts with a two-character prefix
   and the header of `mode`, followed by a newline and anything, reads as
   `mode`.
   */
  lemma HeaderRoundTrip(t: Template, mode: Mode, prefix: string, rest: string)
    requires mode != Undefined && mode != Unknown
    requires Distinguishable(t)
    requires |prefix| == 2 && '\n' !in prefix
    ensures ReadModeOf(t, prefix + Header(t, mode) + "\n" + rest) == mode
  {
    var header := Header(t, mode);
    var content := prefix + header + "\n" + rest;
    SplitAppend(prefix + header, rest);
    SplitPrefix(prefix, header);
    var hl := Split(header);
    var lines := Split(content);
    assert lines == [prefix + hl[0]] + hl[1..] + Split(rest);
    assert (prefix + hl[0])[2..] == hl[0];
    assert CandidateShebang(content) == hl[0];
    if mode in {Pythonpath, Poetry, Pipenv} {
      SplitNoNewline(header);
    } else {
      assert |hl| == 5;
      assert lines[1..5] == hl[1..];
      assert [hl[0]] + hl[1..] == hl;
      JoinSplit(header);
      assert MultilineShebang(content) == header;
    }
  }

  /**
   A hook made of a two-character prefix, the header of `mode`, a body
   without `{` and the version marker of the template reads back as `mode`
   and is current.
   */
  lemma RenderedHookReadsBack(t: Template, mode: Mode, prefix: string, body: string, tail: string)
    requires mode != Undefined && mode != Unknown
    requires Distinguishable(t) && t.version >= 0
    requires |prefix| == 2 && '\n' !in prefix
    requires '{' !in prefix + Header(t, mode) + "\n" + body
    requires tail == [] || tail[0] == '\n'
    ensures var content := prefix + Header(t, mode) + "\n" + body + VersionPattern.VersionMarker(t.version) + tail;
            ReadModeOf(t, content) == mode && IsCurrentContent(t, content)
  {
    var head := prefix + Header(t, mode) + "\n" + body;
    var marked := VersionPattern.VersionMarker(t.version) + tail;
    assert head + VersionPattern.VersionMarker(t.version) + tail == prefix + Header(t, mode) + "\n" + (body + marked);
    HeaderRoundTrip(t, mode, prefix, body + marked);
    ReadVersionOfMarkedText(head, t.version, tail);
  }

  // ---------------------------------------------------------------------------
  // read_version

  /** The version is the sentinel -1 exactly when the content holds no marker. */
  lemma ReadVersionAbsent(content: string)
    ensures ReadVersionOf(content) == -1 <==> forall m :: !VersionPattern.MarkerIn(content, m)
  {
    VersionPattern.SearchAbsent(content);
  }

  /**
   Otherwise the version is the decimal value of the digits of the leftmost
   marker; the lemma returns that marker.
   */
  lemma ReadVersionLeftmost(content: string) returns (m: VersionPattern.Marker)
    requires ReadVersionOf(content) != -1
    ensures VersionPattern.MarkerIn(content, m)
    ensures forall m' :: VersionPattern.MarkerIn(content, m') ==> m.start <= m'.start
    ensures forall k :: m.DigitsStart() <= k < m.DigitsEnd() ==> VersionPattern.IsDigit(content[k])
    ensures ReadVersionOf(content) == VersionPattern.DecimalValue(content[m.DigitsStart()..m.DigitsEnd()])
  {
    m := VersionPattern.SearchLeftmost(content);
  }

  /** Content without a `{` has no version. */
  lemma NoBraceNoVersion(content: string)
    requires '{' !in content
    ensures ReadVersionOf(content) == -1
  {
    ReadVersionAbsent(content);
  }

  /**
   Content whose last line is the marker for `n` (or that has it followed by
   a newline), with no `{` before it, has version `n`.
   */
  lemma ReadVersionOfMarkedText(body: string, n: nat, tail: string)
    requires '{' !in body
    requires tail == [] || tail[0] == '\n'
    ensures ReadVersionOf(body + VersionPattern.VersionMarker(n) + tail) == n
  {
    VersionPattern.SearchMarkedText(body, n, tail);
    VersionPattern.DecimalRoundTrip(n);
  }

  // ---------------------------------------------------------------------------
  // is_autohooks_pre_commit_hook and is_current_autohooks_pre_commit_hook

  /** Five newlines: six lines. */
  const SixEmptyLines: string := "\n\n\n\n\n"

  lemma SixEmptyLinesCount()
    ensures NewlineCount(SixEmptyLines) == 5
  {
    assert SixEmptyLines[1..] == "\n\n\n\n";
    assert SixEmptyLines[1..][1..] == "\n\n\n";
    assert SixEmptyLines[1..][1..][1..] == "\n\n";
    assert SixEmptyLines[1..][1..][1..][1..] == "\n";
  }

  /** The marker alone, on one line, does not make a hook autohooks' own. */
  lemma MarkerAloneNotOwned()
    ensures !IsAutohooksContent(PrecommitMarker)
  {
    NoNewlineCountZero(PrecommitMarker);
  }

  /** Six lines without the marker do not make a hook autohooks' own. */
  lemma LinesAloneNotOwned()
    ensures NewlineCount(SixEmptyLines) == 5 && !IsAutohooksContent(SixEmptyLines)
  {
    SixEmptyLinesCount();
  }

  /** The marker after text with five newlines does make a hook autohooks' own. */
  lemma LinesAndMarkerOwned(lines: string)
    requires NewlineCount(lines) >= 5
    ensures IsAutohooksContent(lines + PrecommitMarker)
  {
    var owned := lines + PrecommitMarker;
    assert NewlineCount(owned) >= 5 by {
      NewlineCountAppend(lines, PrecommitMarker);
    }
    assert OccursAt(owned, PrecommitMarker, |lines|) by {
      assert owned[|lines|..] == PrecommitMarker;
    }
  }

  /** Appending lines to autohooks' own hook keeps it autohooks' own. */
  lemma OwnershipKeptByAppending(content: string, more: string)
    requires IsAutohooksContent(content)
    ensures IsAutohooksContent(content + more)
  {
    NewlineCountAppend(content, more);
    var i :| 0 <= i <= |content| && OccursAt(content, PrecommitMarker, i);
    assert (content + more)[i..i + |PrecommitMarker|] == content[i..i + |PrecommitMarker|];
    assert OccursAt(content + more, PrecommitMarker, i);
  }

  /** With a non-negative template version, content without a marker is never current. */
  lemma NoMarkerIsNotCurrent(t: Template, content: string)
    requires t.version >= 0
    requires forall m :: !VersionPattern.MarkerIn(content, m)
    ensures !IsCurrentContent(t, content)
  {
    ReadVersionAbsent(content);
  }

  /**
   Content ending with the marker for the template version is current, and
   one ending with the marker for any other number is not.
   */
  lemma MarkedTextCurrency(t: Template, body: string, n: nat, tail: string)
    requires '{' !in body
    requires tail == [] || tail[0] == '\n'
    ensures IsCurrentContent(t, body + VersionPattern.VersionMarker(n) + tail) <==> n == t.version
  {
    ReadVersionOfMarkedText(body, n, tail);
  }

  // ---------------------------------------------------------------------------
  // The hook file

  type Path = string

  /** A file: its text and its permission bits. */
  datatype File = File(text: string, permissions: nat)

  /** Permission bits of an installed hook: octal 775, rwxrwxr-x. */
  const HookPermissions: nat := 7 * 64 + 7 * 8 + 5

  /**
   The file system as the hook sees it. A file created by a write gets the
   permission bits `createPermissions` (what the process's umask allows); a
   write to an existing file keeps its bits.
   */
  class FileSystem {
    var files: map<Path, File>
    const createPermissions: nat

    constructor (files: map<Path, File>, createPermissions: nat)
      ensures this.files == files && this.createPermissions == createPermissions
    {
      this.files := files;
      this.createPermissions := createPermissions;
    }

    method Exists(p: Path) returns (b: bool)
      ensures b <==> p in files
    {
      b := p in files;
    }

    method ReadText(p: Path) returns (text: string)
      requires p in files
      ensures text == files[p].text
    {
      text := files[p].text;
    }

    method WriteText(p: Path, text: string)
      modifies this
      ensures p in files && files[p].text == text
      ensures files[p].permissions ==
              if p in old(files) then old(files)[p].permissions else createPermissions
      ensures forall q :: q != p ==> (q in files <==> q in old(files))
      ensures forall q :: q != p && q in files ==> files[q] == old(files)[q]
    {
      var permissions := if p in files then files[p].permissions else createPermissions;
      files := files[p := File(text, permissions)];
    }

    method Chmod(p: Path, permissions: nat)
      requires p in files
      modifies this
      ensures files == old(files)[p := File(old(files)[p].text, permissions)]
    {
      files := files[p := File(files[p].text, permissions)];
    }
  }

  /**
   The pre-commit hook at a path, with its lazily loaded content. `cache`
   holds the content once it has been read; `Write` clears it.
   */
  class PreCommitHook {
    const fs: FileSystem
    const path: Path
    const template: Template
    const render: Mode -> string
    var cache: Option<string>

    /** The hook at `explicitPath` when one is given, else at the default hook path. */
    constructor (fs: FileSystem, template: Template, render: Mode -> string,
                 defaultPath: Path, explicitPath: Option<Path>)
      ensures this.path == if explicitPath.Some? then explicitPath.value else defaultPath
      ensures this.fs == fs && this.template == template && cache == None
      ensures forall mode :: this.render(mode) == render(mode)
    {
      this.fs := fs;
      this.template := template;
      this.render := render;
      if explicitPath.Some? {
        this.path := explicitPath.value;
      } else {
        this.path := defaultPath;
      }
      cache := None;
    }

    /** Reading the content succeeds when it is cached or the file exists. */
    ghost predicate Readable()
      reads this, fs
    {
      cache.Some? || path in fs.files
    }

    /** The content the next read yields: the cached text, or else the file's. */
    ghost function Content(): string
      reads this, fs
      requires Readable()
    {
      if cache.Some? then cache.value else fs.files[path].text
    }

    /** The cache agrees with the file: nothing stale would be read. */
    ghost predicate Coherent()
      reads this, fs
    {
      cache.Some? ==> path in fs.files && fs.files[path].text == cache.value
    }

    method Exists() returns (b: bool)
      ensures b <==> path in fs.files
    {
      b := fs.Exists(path);
    }

    /** The `pre_commit_hook` property: read the file once, then answer from the cache. */
    method PreCommitHookContent() returns (text: string)
      requires Readable()
      modifies this
      ensures text == old(Content()) && cache == Some(text)
      ensures old(Coherent()) ==> Coherent()
    {
      if cache.None? {
        var read := fs.ReadText(path);
        cache := Some(read);
      }
      text := cache.value;
    }

    method IsAutohooksPreCommitHook() returns (b: bool)
      requires Readable()
      modifies this
      ensures b == IsAutohooksContent(old(Content())) && cache == Some(old(Content()))
    {
      var text := PreCommitHookContent();
      var lines := Split(text);
      b := |lines| > 5 && Contains(text, PrecommitMarker);
    }

    method IsCurrentAutohooksPreCommitHook() returns (b: bool)
      requires Readable()
      modifies this
      ensures b == IsCurrentContent(template, old(Content())) && cache == Some(old(Content()))
    {
      var version := ReadVersion();
      b := version == template.version;
    }

    method ReadMode() returns (mode: Mode)
      requires Readable()
      modifies this
      ensures mode == ReadModeOf(template, old(Content())) && cache == Some(old(Content()))
    {
      var text := PreCommitHookContent();
      mode := ReadModeOf(template, text);
    }

    method ReadVersion() returns (version: int)
      requires Readable()
      modifies this
      ensures version == ReadVersionOf(old(Content())) && cache == Some(old(Content()))
    {
      var text := PreCommitHookContent();
      version := ReadVersionOf(text);
    }

    /**
     Write the rendered template for `mode` to the hook path with permission
     bits 775, then drop the cached content with `del`. Deleting a
     `functools.cached_property` that was never loaded raises
     `AttributeError`; `raised` reports that outcome. The file is written and
     its bits are set before the `del`, so the new state is the same either way.
     */
    method Write(mode: Mode) returns (raised: bool)
      modifies this, fs
      ensures raised <==> old(cache).None?
      ensures fs.files == old(fs.files)[path := File(render(mode), HookPermissions)]
      ensures cache == None
      ensures Readable() && Coherent() && Content() == render(mode)
    {
      var text := render(mode);
      fs.WriteText(path, text);
      fs.Chmod(path, HookPermissions);
      raised := cache.None?;
      cache := None;
    }
  }

  /**
   After a write the read accessors see the new hook, never content cached
   before the write. The write raises when the hook had not been read; a
   caller that catches the error and reads on sees the new hook all the same.
   */
  method WriteThenInspect(hook: PreCommitHook, mode: Mode) returns (raised: bool, m: Mode, v: int, current: bool)
    modifies hook, hook.fs
    ensures raised <==> old(hook.cache).None?
    ensures m == ReadModeOf(hook.template, hook.render(mode))
    ensures v == ReadVersionOf(hook.render(mode))
    ensures current <==> ReadVersionOf(hook.render(mode)) == hook.template.version
  {
    raised := hook.Write(mode);
    m := hook.ReadMode();
    v := hook.ReadVersion();
    current := hook.IsCurrentAutohooksPreCommitHook();
  }

  /**
   The cache belongs to one hook object: a write through one object leaves
   another object on the same path answering from its old cached content.
   The write raises exactly when the writing object had not been read.
   */
  method WriteLeavesOtherCache(writer: PreCommitHook, reader: PreCommitHook, mode: Mode)
      returns (raised: bool, seen: string)
    requires writer != reader && writer.fs == reader.fs && writer.path == reader.path
    requires reader.cache.Some?
    modifies writer, writer.fs, reader
    ensures raised <==> old(writer.cache).None?
    ensures seen == old(reader.cache.value)
    ensures writer.path in writer.fs.files && writer.fs.files[writer.path].text == writer.render(mode)
  {
    raised := writer.Write(mode);
    ghost var written := writer.fs.files;
    seen := reader.PreCommitHookContent();
    assert writer.fs.files == written;
  }
}
