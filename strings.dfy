/**
 Line handling on text, as the hook logic uses it: Python's `str.split("\n")`,
 `"\n".join(...)`, `str.startswith` and the `in` substring test.
 */
module Strings {

  /** Number of newline characters in `s`. */
  function NewlineCount(s: string): nat
  {
    if s == [] then 0 else (if s[0] == '\n' then 1 else 0) + NewlineCount(s[1..])
  }

  lemma {:induction false} NewlineCountAppend(a: string, b: string)
    ensures NewlineCount(a + b) == NewlineCount(a) + NewlineCount(b)
  {
    if a != [] {
      assert (a + b)[0] == a[0] && (a + b)[1..] == a[1..] + b;
      NewlineCountAppend(a[1..], b);
    } else {
      assert a + b == b;
    }
  }

  lemma {:induction false} NoNewlineCountZero(s: string)
    requires '\n' !in s
    ensures NewlineCount(s) == 0
  {
    if s != [] {
      NoNewlineCountZero(s[1..]);
    }
  }

  /**
   Python's `s.split("\n")`: the pieces of `s` between newlines, in order.
   There is always at least one piece, so the empty text gives `[""]`.
   */
  function Split(s: string): (lines: seq<string>)
    ensures |lines| == NewlineCount(s) + 1
    ensures forall i :: 0 <= i < |lines| ==> '\n' !in lines[i]
    decreases |s|
  {
    if s == [] then [""]
    else
      var rest := Split(s[1..]);
      if s[0] == '\n' then [""] + rest
      else [[s[0]] + rest[0]] + rest[1..]
  }

  /** Python's `"\n".join(lines)`. */
  function Join(lines: seq<string>): (s: string)
    ensures (forall i :: 0 <= i < |lines| ==> '\n' !in lines[i]) ==>
              NewlineCount(s) == if |lines| == 0 then 0 else |lines| - 1
  {
    if |lines| == 0 then ""
    else if |lines| == 1 then
      if '\n' !in lines[0] then NoNewlineCountZero(lines[0]); lines[0] else lines[0]
    else
      var rest := Join(lines[1..]);
      NewlineCountAppend(lines[0] + "\n", rest);
      NewlineCountAppend(lines[0], "\n");
      if '\n' !in lines[0] then NoNewlineCountZero(lines[0]); lines[0] + "\n" + rest
      else lines[0] + "\n" + rest
  }

  /** Joining the pieces of a split gives back the text. */
  lemma {:induction false} JoinSplit(s: string)
    ensures Join(Split(s)) == s
    decreases |s|
  {
    if s != [] {
      var rest := Split(s[1..]);
      JoinSplit(s[1..]);
      if s[0] == '\n' {
        assert ([""] + rest)[1..] == rest;
        assert s == "\n" + s[1..];
      } else {
        var lines := [[s[0]] + rest[0]] + rest[1..];
        assert lines[1..] == rest[1..];
        if |rest| == 1 {
          assert s == [s[0]] + s[1..];
        } else {
          assert Join(rest) == rest[0] + "\n" + Join(rest[1..]);
          assert s == [s[0]] + s[1..];
        }
      }
    }
  }

  /** Splitting text that starts with a newline-free piece `x`. */
  lemma {:induction false} SplitPrefix(x: string, s: string)
    requires '\n' !in x
    ensures Split(x + s) == [x + Split(s)[0]] + Split(s)[1..]
    decreases |x|
  {
    if x != [] {
      assert x[0] in x;
      assert (x + s)[0] == x[0] && (x + s)[1..] == x[1..] + s;
      assert '\n' !in x[1..] by {
        forall c | c in x[1..] ensures c in x { }
      }
      SplitPrefix(x[1..], s);
      var rest := Split(x[1..] + s);
      assert rest[0] == x[1..] + Split(s)[0];
      assert rest[1..] == Split(s)[1..];
      assert [x[0]] + (x[1..] + Split(s)[0]) == x + Split(s)[0];
    } else {
      var rest := Split(s);
      assert x + s == s && x + rest[0] == rest[0];
      assert [rest[0]] + rest[1..] == rest;
    }
  }

  /** A newline-free line followed by a newline is split off as the first piece. */
  lemma SplitLine(x: string, s: string)
    requires '\n' !in x
    ensures Split(x + "\n" + s) == [x] + Split(s)
  {
    SplitPrefix(x, "\n" + s);
    assert x + "\n" + s == x + ("\n" + s);
    assert ("\n" + s)[0] == '\n' && ("\n" + s)[1..] == s;
    var rest := Split("\n" + s);
    assert rest == [""] + Split(s);
    assert rest[1..] == Split(s) && x + rest[0] == x;
  }

  /** Splitting newline-free text gives the text as its only piece. */
  lemma SplitNoNewline(x: string)
    requires '\n' !in x
    ensures Split(x) == [x]
  {
    SplitPrefix(x, "");
    assert x + "" == x;
  }

  /** One step of Split on text that starts with a newline. */
  lemma SplitNewlineFirst(t: string)
    ensures Split("\n" + t) == [""] + Split(t)
  {
    assert ("\n" + t)[0] == '\n' && ("\n" + t)[1..] == t;
  }

  /** One step of Split on text that starts with another character. */
  lemma SplitCharFirst(c: char, t: string)
    requires c != '\n'
    ensures Split([c] + t) == [[c] + Split(t)[0]] + Split(t)[1..]
  {
    assert ([c] + t)[0] == c && ([c] + t)[1..] == t;
  }

  /** Splitting distributes over a newline: the pieces of both sides, in order. */
  lemma {:induction false} SplitAppend(a: string, b: string)
    ensures Split(a + "\n" + b) == Split(a) + Split(b)
    decreases |a|
  {
    if a == [] {
      assert a + "\n" + b == "\n" + b;
      SplitNewlineFirst(b);
    } else {
      SplitAppend(a[1..], b);
      SplitAppendStep(a, b);
    }
  }

  /** Inductive step of SplitAppend: from the text after the first character to the whole. */
  lemma SplitAppendStep(a: string, b: string)
    requires a != []
    requires Split(a[1..] + "\n" + b) == Split(a[1..]) + Split(b)
    ensures Split(a + "\n" + b) == Split(a) + Split(b)
  {
    var c, a' := a[0], a[1..];
    assert a == [c] + a';
    assert a + "\n" + b == [c] + (a' + "\n" + b);
    if c == '\n' {
      SplitNewlineFirst(a' + "\n" + b);
      SplitNewlineFirst(a');
      SeqConsAssoc("", Split(a'), Split(b));
    } else {
      SplitCharFirst(c, a' + "\n" + b);
      SplitCharFirst(c, a');
      SplitAppendHead(c, Split(a'), Split(b));
    }
  }

  lemma SeqConsAssoc(x: string, r: seq<string>, q: seq<string>)
    ensures [x] + (r + q) == ([x] + r) + q
  {
  }

  /** Prepending a character to the first piece commutes with appending more pieces. */
  lemma SplitAppendHead(c: char, ra: seq<string>, rb: seq<string>)
    requires |ra| >= 1
    ensures [[c] + (ra + rb)[0]] + (ra + rb)[1..] == ([[c] + ra[0]] + ra[1..]) + rb
  {
    assert (ra + rb)[0] == ra[0];
    assert (ra + rb)[1..] == ra[1..] + rb;
  }

  /** Splitting joined newline-free pieces gives the pieces back. */
  lemma {:induction false} SplitJoin(lines: seq<string>)
    requires |lines| >= 1
    requires forall i :: 0 <= i < |lines| ==> '\n' !in lines[i]
    ensures Split(Join(lines)) == lines
  {
    if |lines| == 1 {
      SplitNoNewline(lines[0]);
    } else {
      SplitJoin(lines[1..]);
      SplitLine(lines[0], Join(lines[1..]));
      assert [lines[0]] + lines[1..] == lines;
    }
  }

  /**
   The index where the `k`-th line of `s` ends (`k` counts from 1): the
   position of the `k`-th newline, or the end of the text when `s` has fewer
   than `k` newlines.
   */
  function LineEnd(s: string, k: nat): (e: nat)
    requires k >= 1
    ensures e <= |s|
    ensures e == |s| || s[e] == '\n'
    ensures NewlineCount(s[..e]) == if NewlineCount(s) < k - 1 then NewlineCount(s) else k - 1
    ensures k >= 2 ==> LineEnd(s, 1) <= e
    decreases |s|, k
  {
    if s == [] then 0
    else if s[0] == '\n' && k == 1 then 0
    else
      var k' := if s[0] == '\n' then k - 1 else k;
      var e' := LineEnd(s[1..], k');
      assert s[..1 + e'] == [s[0]] + s[1..][..e'];
      1 + e'
  }

  /** The first `k` pieces of a split, joined again, are the text up to the end of line `k`. */
  lemma {:induction false} JoinFirstLines(s: string, k: nat)
    requires k >= 1
    ensures var lines := Split(s);
            Join(lines[..if k < |lines| then k else |lines|]) == s[..LineEnd(s, k)]
    decreases |s|
  {
    if s == [] {
      assert Split(s)[..1] == [""];
    } else if s[0] == '\n' {
      if k == 1 {
        assert Split(s)[..1] == [""];
      } else {
        JoinFirstLines(s[1..], k - 1);
        JoinFirstLinesAfterNewline(s, k);
      }
    } else {
      JoinFirstLines(s[1..], k);
      JoinFirstLinesAfterChar(s, k);
    }
  }

  /** Inductive step of JoinFirstLines when the text starts with a newline. */
  lemma JoinFirstLinesAfterNewline(s: string, k: nat)
    requires s != [] && s[0] == '\n' && k >= 2
    requires var rest := Split(s[1..]);
             Join(rest[..if k - 1 < |rest| then k - 1 else |rest|]) == s[1..][..LineEnd(s[1..], k - 1)]
    ensures var lines := Split(s);
            Join(lines[..if k < |lines| then k else |lines|]) == s[..LineEnd(s, k)]
  {
    var lines := Split(s);
    var rest := Split(s[1..]);
    var m := if k < |lines| then k else |lines|;
    var m' := if k - 1 < |rest| then k - 1 else |rest|;
    assert lines == [""] + rest;
    assert lines[..m] == [""] + rest[..m'];
    assert ([""] + rest[..m'])[1..] == rest[..m'];
    assert s[..1 + LineEnd(s[1..], k - 1)] == "\n" + s[1..][..LineEnd(s[1..], k - 1)];
  }

  /** Inductive step of JoinFirstLines when the text starts with another character. */
  lemma JoinFirstLinesAfterChar(s: string, k: nat)
    requires s != [] && s[0] != '\n' && k >= 1
    requires var rest := Split(s[1..]);
             Join(rest[..if k < |rest| then k else |rest|]) == s[1..][..LineEnd(s[1..], k)]
    ensures var lines := Split(s);
            Join(lines[..if k < |lines| then k else |lines|]) == s[..LineEnd(s, k)]
  {
    var rest := Split(s[1..]);
    var m := if k < |rest| then k else |rest|;
    var lines := Split(s);
    assert |lines| == |rest|;
    JoinFirstPiecePrepend(s[0], rest, m);
    var e' := LineEnd(s[1..], k);
    assert LineEnd(s, k) == 1 + e';
    assert s[..1 + e'] == [s[0]] + s[1..][..e'];
  }

  /** Putting a character in front of the first piece puts it in front of the join. */
  lemma JoinFirstPiecePrepend(c: char, rest: seq<string>, m: nat)
    requires 1 <= m <= |rest|
    ensures Join(([[c] + rest[0]] + rest[1..])[..m]) == [c] + Join(rest[..m])
  {
    var head := [c] + rest[0];
    var lines := [head] + rest[1..];
    assert lines[..m] == [head] + rest[1..m];
    assert rest[..m] == [rest[0]] + rest[1..m];
    if m > 1 {
      assert ([head] + rest[1..m])[1..] == rest[1..m];
      assert ([rest[0]] + rest[1..m])[1..] == rest[1..m];
    }
  }

  /** The first piece of a split is the text before the first newline. */
  lemma FirstPiece(s: string)
    ensures Split(s)[0] == s[..LineEnd(s, 1)]
  {
    JoinFirstLines(s, 1);
  }

  /** Python's `s.startswith(prefix)`. */
  predicate StartsWith(s: string, prefix: string): (b: bool)
    ensures b <==> |prefix| <= |s| && forall k :: 0 <= k < |prefix| ==> s[k] == prefix[k]
  {
    |prefix| <= |s| && s[..|prefix|] == prefix
  }

  /** `sub` occurs in `s` starting at index `i`. */
  predicate OccursAt(s: string, sub: string, i: nat)
  {
    i + |sub| <= |s| && s[i..i + |sub|] == sub
  }

  /** Python's `sub in s`, scanning the start positions from `from` on. */
  function ContainsFrom(s: string, sub: string, from: nat): (b: bool)
    requires from <= |s|
    ensures b <==> exists i :: from <= i <= |s| && OccursAt(s, sub, i)
    decreases |s| - from
  {
    if OccursAt(s, sub, from) then true
    else if from == |s| then false
    else ContainsFrom(s, sub, from + 1)
  }

  /** Python's `sub in s`. */
  function Contains(s: string, sub: string): (b: bool)
    ensures b <==> exists i :: 0 <= i <= |s| && OccursAt(s, sub, i)
  {
    ContainsFrom(s, sub, 0)
  }

}
