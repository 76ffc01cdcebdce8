/** The parts of Python's `str` that the modelled code relies on: prefix and
    suffix tests, `in`, `split`, `join`, `splitlines`, `strip`, `replace`, and
    the rendering of `None` by `format`. `splitlines` and `strip` use the
    character sets of text strings (Python 3 `str`, Python 2 `unicode`). */
module Strings {
  import opened Wrappers

  predicate StartsWith(s: string, p: string)
  {
    |p| <= |s| && s[..|p|] == p
  }

  predicate EndsWith(s: string, p: string)
  {
    |p| <= |s| && s[|s| - |p|..] == p
  }

  /** `sub` occurs in `s` starting at index `i`. */
  predicate OccursAt(s: string, sub: string, i: nat)
  {
    i + |sub| <= |s| && s[i..i + |sub|] == sub
  }

  /** Python's `sub in s`. */
  predicate Contains(s: string, sub: string)
  {
    exists i: nat | i <= |s| :: OccursAt(s, sub, i)
  }

  lemma OccursAtTail(s: string, sub: string, i: nat)
    requires |s| > 0
    ensures OccursAt(s[1..], sub, i) <==> OccursAt(s, sub, i + 1)
  {
    OccursAtDrop(s, sub, 1, i);
  }

  lemma OccursAtDrop(s: string, sub: string, k: nat, i: nat)
    requires k <= |s|
    ensures OccursAt(s[k..], sub, i) <==> OccursAt(s, sub, k + i)
  {
    if k + i + |sub| <= |s| {
      assert s[k..][i..i + |sub|] == s[k + i..k + i + |sub|];
    }
  }

  /** The index of the first occurrence of `sub` in `s`, as `str.find`. */
  function IndexOf(s: string, sub: string): (r: Option<nat>)
    ensures r.Some? ==> OccursAt(s, sub, r.value)
    ensures r.Some? ==> forall j: nat :: j < r.value ==> !OccursAt(s, sub, j)
    ensures r.None? <==> !Contains(s, sub)
    decreases |s|
  {
    if |s| < |sub| then None
    else if s[..|sub|] == sub then Some(0)
    else
      var rest := IndexOf(s[1..], sub);
      assert !OccursAt(s, sub, 0);
      forall j: nat | j <= |s| - 1
        ensures OccursAt(s[1..], sub, j) <==> OccursAt(s, sub, j + 1)
      {
        OccursAtTail(s, sub, j);
      }
      if rest.None? then
        assert forall j: nat | j <= |s| :: !OccursAt(s, sub, j) by {
          forall j: nat | j <= |s| ensures !OccursAt(s, sub, j) {
            if j > 0 { assert !OccursAt(s[1..], sub, j - 1); }
          }
        }
        None
      else
        assert forall j: nat :: j < rest.value + 1 ==> !OccursAt(s, sub, j) by {
          forall j: nat | j < rest.value + 1 ensures !OccursAt(s, sub, j) {
            if j > 0 { assert !OccursAt(s[1..], sub, j - 1); }
          }
        }
        Some(rest.value + 1)
  }

  /** Python's `sep.join(parts)`. */
  function Join(parts: seq<string>, sep: string): string
  {
    if |parts| == 0 then ""
    else if |parts| == 1 then parts[0]
    else parts[0] + sep + Join(parts[1..], sep)
  }

  /** The text before the first occurrence of `sub` does not contain `sub`. */
  lemma BeforeFirstOccurrence(s: string, sub: string, i: nat)
    requires i <= |s| && |sub| > 0
    requires forall j: nat :: j < i ==> !OccursAt(s, sub, j)
    ensures !Contains(s[..i], sub)
  {
    forall j: nat | j <= i ensures !OccursAt(s[..i], sub, j) {
      if OccursAt(s[..i], sub, j) {
        assert s[j..j + |sub|] == s[..i][j..j + |sub|];
        assert OccursAt(s, sub, j);
      }
    }
  }

  /** Python's `s.split(sep)` for a non-empty separator: the pieces between
      the non-overlapping occurrences of `sep`, found from the left. */
  function Split(s: string, sep: string): (parts: seq<string>)
    requires |sep| > 0
    ensures |parts| >= 1
    ensures Join(parts, sep) == s
    ensures forall k :: 0 <= k < |parts| ==> !Contains(parts[k], sep)
    ensures |parts| == 1 <==> !Contains(s, sep)
    ensures |parts[0]| <= |s| && parts[0] == s[..|parts[0]|]
    ensures |parts| > 1 ==> OccursAt(s, sep, |parts[0]|)
    decreases |s|
  {
    match IndexOf(s, sep)
    case None => [s]
    case Some(i) =>
      var rest := Split(s[i + |sep|..], sep);
      BeforeFirstOccurrence(s, sep, i);
      SplitStep(s, sep, i, rest);
      [s[..i]] + rest
  }

  /** The pieces of one step of Split put back together. */
  lemma SplitStep(s: string, sep: string, i: nat, rest: seq<string>)
    requires OccursAt(s, sep, i) && |rest| >= 1
    requires Join(rest, sep) == s[i + |sep|..]
    ensures Join([s[..i]] + rest, sep) == s
    ensures ([s[..i]] + rest)[1..] == rest
  {
    JoinCons(s[..i], rest, sep);
    OccursAtSplit(s, sep, i);
  }

  lemma JoinCons(x: string, rest: seq<string>, sep: string)
    requires |rest| >= 1
    ensures Join([x] + rest, sep) == x + sep + Join(rest, sep)
    ensures ([x] + rest)[1..] == rest
  {
    assert ([x] + rest)[1..] == rest;
  }

  /** An occurrence cuts `s` into what comes before, `sub`, and the rest. */
  lemma OccursAtSplit(s: string, sub: string, i: nat)
    requires OccursAt(s, sub, i)
    ensures s == s[..i] + sub + s[i + |sub|..]
  {
    assert s[i..i + |sub|] == sub;
    assert s[..i + |sub|] == s[..i] + s[i..i + |sub|];
    assert s == s[..i + |sub|] + s[i + |sub|..];
  }

  /** Past the first `sep`, `split` starts over on the rest of `s`. */
  lemma SplitUnfold(s: string, sep: string) returns (i: nat)
    requires |sep| > 0 && Contains(s, sep)
    ensures IndexOf(s, sep) == Some(i) && i + |sep| <= |s|
    ensures Split(s, sep) == [s[..i]] + Split(s[i + |sep|..], sep)
  {
    i := IndexOf(s, sep).value;
  }

  /** The first piece of `split` is all of `t` or ends at an occurrence. */
  lemma SplitFirst(t: string, sep: string)
    requires |sep| > 0
    ensures |Split(t, sep)| == 1 ==> Split(t, sep)[0] == t
    ensures |Split(t, sep)| > 1 ==> OccursAt(t, sep, |Split(t, sep)[0]|)
  {
    if |Split(t, sep)| == 1 {
      assert Join(Split(t, sep), sep) == Split(t, sep)[0];
    }
  }

  /** `s.split(sep)[1]` starts right after the first `sep` and runs up to
      the next `sep` or the end of `s`. */
  lemma SplitSecond(s: string, sep: string)
    requires |sep| > 0 && Contains(s, sep)
    ensures |Split(s, sep)| >= 2
    ensures IndexOf(s, sep).value + |sep| <= |s|
    ensures
      var rest := s[IndexOf(s, sep).value + |sep|..];
      var v := Split(s, sep)[1];
      && StartsWith(rest, v)
      && (|Split(s, sep)| == 2 ==> v == rest)
      && (|Split(s, sep)| > 2 ==> OccursAt(rest, sep, |v|))
  {
    var i := SplitUnfold(s, sep);
    SplitFirst(s[i + |sep|..], sep);
  }

  /** Python's `s.split(sep, 1)`: the text before the first `sep` and the text
      after it, or `[s]` when `sep` does not occur. */
  function SplitOnce(s: string, sep: string): (parts: seq<string>)
    requires |sep| > 0
    ensures |parts| == 1 <==> !Contains(s, sep)
    ensures |parts| == 1 ==> parts[0] == s
    ensures |parts| != 1 ==>
      && |parts| == 2
      && s == parts[0] + sep + parts[1]
      && !Contains(parts[0], sep)
  {
    match IndexOf(s, sep)
    case None => [s]
    case Some(i) =>
      BeforeFirstOccurrence(s, sep, i);
      OccursAtSplit(s, sep, i);
      [s[..i], s[i + |sep|..]]
  }

  /** A `sep` starting inside `a` would put `sep[k]` inside `a` or earlier in
      `sep`, so when neither holds no occurrence in `a + sep + b` starts
      inside `a`. */
  lemma NoEarlierOccurrence(a: string, sep: string, b: string, k: nat, j: nat)
    requires k < |sep| && sep[k] !in a && sep[k] !in sep[..k] && j < |a|
    ensures !OccursAt(a + sep + b, sep, j)
  {
    var s := a + sep + b;
    assert j + |sep| <= |s| ==> s[j..j + |sep|][k] == s[j + k];
    assert j + k < |a| ==> s[j + k] == a[j + k];
    assert j + k >= |a| ==> s[j + k] == sep[j + k - |a|] == sep[..k][j + k - |a|];
  }

  /** Under the same condition the first `sep` is the one right after `a`. */
  lemma FirstOccurrenceAfter(a: string, sep: string, b: string, k: nat)
    requires k < |sep| && sep[k] !in a && sep[k] !in sep[..k]
    ensures IndexOf(a + sep + b, sep) == Some(|a|)
    ensures SplitOnce(a + sep + b, sep) == [a, b]
  {
    var s := a + sep + b;
    assert s[|a|..|a| + |sep|] == sep;
    assert OccursAt(s, sep, |a|);
    forall j: nat | j < |a| ensures !OccursAt(s, sep, j) {
      NoEarlierOccurrence(a, sep, b, k, j);
    }
    assert s[..|a|] == a && s[|a| + |sep|..] == b;
  }

  /** Under the same condition `split` cuts `a` off first. */
  lemma SplitAfter(a: string, sep: string, b: string, k: nat)
    requires k < |sep| && sep[k] !in a && sep[k] !in sep[..k]
    ensures Split(a + sep + b, sep) == [a] + Split(b, sep)
  {
    FirstOccurrenceAfter(a, sep, b, k);
    var s := a + sep + b;
    assert s[..|a|] == a && s[|a| + |sep|..] == b;
  }

  /** A one-character separator occurs exactly where its character does. */
  lemma ContainsChar(s: string, c: char)
    ensures Contains(s, [c]) <==> c in s
  {
    if c in s {
      var i :| 0 <= i < |s| && s[i] == c;
      assert s[i..i + 1] == [c];
      assert OccursAt(s, [c], i);
    }
    assert forall i: nat :: OccursAt(s, [c], i) ==> s[i] == s[i..i + 1][0];
  }

  /** A text of the form `prefix + a + sep1 + b + sep2 + c`, as `format`
      writes it for the template `prefix{}sep1{}sep2{}`. */
  function Format3(prefix: string, sep1: string, sep2: string, a: string, b: string, c: string): string
  {
    prefix + a + sep1 + b + sep2 + c
  }

  /** Reading the three fields back out of a `Format3` text. */
  function Parse3(prefix: string, sep1: string, sep2: string, s: string): Option<(string, string, string)>
    requires |sep1| > 0 && |sep2| > 0
  {
    if !StartsWith(s, prefix) then None
    else
      var first := SplitOnce(s[|prefix|..], sep1);
      if |first| < 2 then None
      else
        var second := SplitOnce(first[1], sep2);
        if |second| < 2 then None
        else Some((first[0], second[0], second[1]))
  }

  /** The fields come back whenever the first two avoid a character that
      each separator holds only once (such as `:` in `" , ID: "`). */
  lemma Format3RoundTrip(prefix: string, sep1: string, sep2: string, a: string, b: string, c: string, k1: nat, k2: nat)
    requires k1 < |sep1| && sep1[k1] !in sep1[..k1] && sep1[k1] !in a
    requires k2 < |sep2| && sep2[k2] !in sep2[..k2] && sep2[k2] !in b
    ensures Parse3(prefix, sep1, sep2, Format3(prefix, sep1, sep2, a, b, c)) == Some((a, b, c))
  {
    var s := Format3(prefix, sep1, sep2, a, b, c);
    assert s[..|prefix|] == prefix;
    assert s[|prefix|..] == a + sep1 + (b + sep2 + c);
    FirstOccurrenceAfter(a, sep1, b + sep2 + c, k1);
    FirstOccurrenceAfter(b, sep2, c, k2);
  }

  /** The number of occurrences `split` finds. */
  function Occurrences(s: string, sep: string): nat
    requires |sep| > 0
  {
    |Split(s, sep)| - 1
  }

  /** Python's slice `s[n:]`, which is empty when `s` is shorter than `n`. */
  function DropPrefix(s: string, n: nat): (r: string)
    ensures n <= |s| ==> s == s[..n] + r
    ensures n > |s| ==> r == ""
  {
    if n <= |s| then s[n..] else ""
  }

  /** The characters at which `str.splitlines` ends a line: line feed,
      carriage return, vertical tab, form feed, the file, group and record
      separators, next line, and the line and paragraph separators. */
  predicate IsLineBreak(c: char)
  {
    || c == '\n' || c == '\r' || c == '\U{000b}' || c == '\U{000c}'
    || c == '\U{001c}' || c == '\U{001d}' || c == '\U{001e}'
    || c == '\U{0085}' || c == '\U{2028}' || c == '\U{2029}'
  }

  predicate NoLineBreak(line: string)
  {
    forall j :: 0 <= j < |line| ==> !IsLineBreak(line[j])
  }

  /** The index of the first line break of `s`, or `|s|` when there is none. */
  function LineEnd(s: string): (i: nat)
    ensures i <= |s|
    ensures i < |s| ==> IsLineBreak(s[i])
    ensures NoLineBreak(s[..i])
  {
    if s == [] then 0
    else if IsLineBreak(s[0]) then 0
    else
      var i := LineEnd(s[1..]);
      assert s[..i + 1] == [s[0]] + s[1..][..i];
      i + 1
  }

  /** `s.splitlines()`: the lines of `s` without their line
      breaks, `\r\n` counting as one break, and no empty line after a final
      break. */
  function SplitLines(s: string): (lines: seq<string>)
    ensures forall k :: 0 <= k < |lines| ==> NoLineBreak(lines[k])
    ensures lines == [] <==> s == []
    ensures NoLineBreak(s) && s != [] ==> lines == [s]
    decreases |s|
  {
    if s == [] then []
    else
      var i := LineEnd(s);
      if i == |s| then
        assert s[..i] == s;
        [s]
      else
        var next := if s[i] == '\r' && i + 1 < |s| && s[i + 1] == '\n' then i + 2 else i + 1;
        [s[..i]] + SplitLines(s[next..])
  }

  /** The characters `str.strip()` removes: those for which `str.isspace`
      holds. */
  predicate IsSpace(c: char)
  {
    || c == ' ' || ('\t' <= c <= '\r') || ('\U{001c}' <= c <= '\U{001f}')
    || c == '\U{0085}' || c == '\U{00a0}' || c == '\U{1680}'
    || ('\U{2000}' <= c <= '\U{200a}') || c == '\U{2028}' || c == '\U{2029}'
    || c == '\U{202f}' || c == '\U{205f}' || c == '\U{3000}'
  }

  function TrimStart(s: string): (r: string)
    ensures |r| <= |s| && r == s[|s| - |r|..]
    ensures r != [] ==> !IsSpace(r[0])
    ensures forall j :: 0 <= j < |s| - |r| ==> IsSpace(s[j])
  {
    if s != [] && IsSpace(s[0]) then TrimStart(s[1..]) else s
  }

  function TrimEnd(s: string): (r: string)
    ensures |r| <= |s| && r == s[..|r|]
    ensures r != [] ==> !IsSpace(r[|r| - 1])
    ensures forall j :: |r| <= j < |s| ==> IsSpace(s[j])
  {
    if s != [] && IsSpace(s[|s| - 1]) then TrimEnd(s[..|s| - 1]) else s
  }

  /** Python's `s.strip()`. */
  function Strip(s: string): string
  {
    TrimEnd(TrimStart(s))
  }

  /** Python's `s.replace(target, repl)` for a one-character `target`. */
  function ReplaceChar(s: string, target: char, repl: string): (r: string)
    ensures target !in s ==> r == s
    ensures target !in repl ==> target !in r
    ensures forall c :: c in r && c != target && c !in repl ==> c in s
  {
    if s == [] then ""
    else (if s[0] == target then repl else [s[0]]) + ReplaceChar(s[1..], target, repl)
  }

  /** `replace` works character by character, so it distributes over `+`. */
  lemma {:induction false} ReplaceCharAppend(a: string, b: string, target: char, repl: string)
    ensures ReplaceChar(a + b, target, repl) == ReplaceChar(a, target, repl) + ReplaceChar(b, target, repl)
  {
    if a == [] {
      assert a + b == b;
    } else {
      assert (a + b)[0] == a[0] && (a + b)[1..] == a[1..] + b;
      ReplaceCharAppend(a[1..], b, target, repl);
    }
  }

  /** The concatenation `a + b + ...` of a sequence of strings. */
  function Concat(parts: seq<string>): string
  {
    if parts == [] then "" else parts[0] + Concat(parts[1..])
  }

  lemma {:induction false} ConcatAppend(a: seq<string>, b: seq<string>)
    ensures Concat(a + b) == Concat(a) + Concat(b)
  {
    if a == [] {
      assert a + b == b;
    } else {
      assert (a + b)[0] == a[0];
      assert (a + b)[1..] == a[1..] + b;
      ConcatAppend(a[1..], b);
      assert Concat(a + b) == a[0] + (Concat(a[1..]) + Concat(b));
    }
  }

  /** What Python's `format` writes for a string or `None`. */
  function Show(o: Option<string>): (r: string)
    ensures o.Some? ==> r == o.value
    ensures o.None? ==> r == "None"
  {
    match o
    case None => "None"
    case Some(s) => s
  }
}
