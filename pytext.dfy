/** The handful of Python `str` operations the parsers rely on, with the
    exact character classes CPython uses: `str.isspace`, `str.strip`,
    `str.splitlines`, `str.split(sep)`, `str.split()`, substring tests,
    `int(str)` and `str(int)`. */
module PyText {
  import opened Wrappers

  /** `c.isspace()` in CPython. */
  predicate IsSpace(c: char) {
    || c == ' '
    || '\t' <= c <= '\r'
    || '\U{1c}' <= c <= '\U{1f}'
    || c == '\U{85}' || c == '\U{a0}' || c == '\U{1680}'
    || '\U{2000}' <= c <= '\U{200a}'
    || c == '\U{2028}' || c == '\U{2029}' || c == '\U{202f}' || c == '\U{205f}' || c == '\U{3000}'
  }

  /** The characters at which `str.splitlines` ends a line (`\r\n` counts once). */
  predicate IsLineBreak(c: char) {
    || '\n' <= c <= '\r'
    || '\U{1c}' <= c <= '\U{1e}'
    || c == '\U{85}' || c == '\U{2028}' || c == '\U{2029}'
  }

  predicate NoSpace(s: string) {
    forall i :: 0 <= i < |s| ==> !IsSpace(s[i])
  }

  predicate NoLineBreak(s: string) {
    forall i :: 0 <= i < |s| ==> !IsLineBreak(s[i])
  }

  /** No whitespace at either end: the shape of every result of `str.strip()`. */
  predicate IsStripped(s: string) {
    s == [] || (!IsSpace(s[0]) && !IsSpace(s[|s| - 1]))
  }

  /** The number of whitespace characters at the start of `s`
      (`LeadingAreSpaces`). */
  function LeadingSpaces(s: string): (n: nat)
    ensures n <= |s|
    ensures n < |s| ==> !IsSpace(s[n])
  {
    if s != [] && IsSpace(s[0]) then 1 + LeadingSpaces(s[1..]) else 0
  }

  /** The number of whitespace characters at the end of `s`
      (`TrailingAreSpaces`). */
  function TrailingSpaces(s: string): (n: nat)
    ensures n <= |s|
    ensures n < |s| ==> !IsSpace(s[|s| - 1 - n])
  {
    if s != [] && IsSpace(s[|s| - 1]) then 1 + TrailingSpaces(s[..|s| - 1]) else 0
  }

  lemma {:induction false} LeadingAreSpaces(s: string)
    ensures forall i :: 0 <= i < LeadingSpaces(s) ==> IsSpace(s[i])
  {
    if s != [] && IsSpace(s[0]) {
      LeadingAreSpaces(s[1..]);
      forall i | 0 < i < LeadingSpaces(s) ensures IsSpace(s[i]) {
        assert s[i] == s[1..][i - 1];
      }
    }
  }

  lemma {:induction false} TrailingAreSpaces(s: string)
    ensures forall i :: |s| - TrailingSpaces(s) <= i < |s| ==> IsSpace(s[i])
  {
    if s != [] && IsSpace(s[|s| - 1]) {
      var init := s[..|s| - 1];
      TrailingAreSpaces(init);
      forall i | |s| - TrailingSpaces(s) <= i < |s| - 1 ensures IsSpace(s[i]) {
        assert s[i] == init[i];
      }
    }
  }

  /** `s.lstrip()`: what follows the leading whitespace. */
  function TrimStart(s: string): (r: string)
    ensures r == [] || !IsSpace(r[0])
    ensures |r| <= |s|
  {
    s[LeadingSpaces(s)..]
  }

  /** `lstrip` keeps a string that does not start with whitespace. */
  lemma TrimStartNoLead(s: string)
    requires s == [] || !IsSpace(s[0])
    ensures TrimStart(s) == s
  {
    assert LeadingSpaces(s) == 0;
    assert s[0..] == s;
  }

  /** `lstrip` drops a leading whitespace character. */
  lemma TrimStartSpace(c: char, s: string)
    requires IsSpace(c)
    ensures TrimStart([c] + s) == TrimStart(s)
  {
    var t := [c] + s;
    assert t[1..] == s;
    assert LeadingSpaces(t) == 1 + LeadingSpaces(s);
    assert t[1 + LeadingSpaces(s)..] == s[LeadingSpaces(s)..];
  }

  /** `s.strip()`: the characters of `s` from its first to its last
      non-whitespace one (`StripIsSlice`). */
  function Strip(s: string): (r: string)
    ensures IsStripped(r)
    ensures LeadingSpaces(s) + |r| <= |s|
  {
    var a := LeadingSpaces(s);
    if a == |s| then ""
    else
      TrailingAreSpaces(s);
      s[a..|s| - TrailingSpaces(s)]
  }

  /** `strip` of a text that is not all whitespace cuts at both runs. */
  lemma {:induction false} StripBounds(s: string)
    requires LeadingSpaces(s) < |s|
    ensures LeadingSpaces(s) <= |s| - TrailingSpaces(s)
    ensures Strip(s) == s[LeadingSpaces(s)..|s| - TrailingSpaces(s)]
  {
    TrailingAreSpaces(s);
  }

  /** What `strip` keeps is a stretch of `s`, and everything it removes is
      whitespace. */
  lemma StripIsSlice(s: string)
    ensures forall i :: 0 <= i < |Strip(s)| ==> Strip(s)[i] == s[LeadingSpaces(s) + i]
    ensures forall i :: 0 <= i < LeadingSpaces(s) ==> IsSpace(s[i])
    ensures forall i :: LeadingSpaces(s) + |Strip(s)| <= i < |s| ==> IsSpace(s[i])
  {
    StripKeepsMiddle(s);
    LeadingAreSpaces(s);
    StripDropsEnd(s);
  }

  lemma StripKeepsMiddle(s: string)
    ensures forall i :: 0 <= i < |Strip(s)| ==> Strip(s)[i] == s[LeadingSpaces(s) + i]
  {
    var a := LeadingSpaces(s);
    if a < |s| {
      TrailingAreSpaces(s);
      var r := s[a..|s| - TrailingSpaces(s)];
      assert Strip(s) == r;
    }
  }

  lemma StripDropsEnd(s: string)
    ensures forall i :: LeadingSpaces(s) + |Strip(s)| <= i < |s| ==> IsSpace(s[i])
  {
    var a := LeadingSpaces(s);
    TrailingAreSpaces(s);
    if a < |s| {
      var n := TrailingSpaces(s);
      assert !IsSpace(s[a]);
      assert |Strip(s)| == |s| - n - a;
    }
  }

  /** Stripping a string that has no whitespace at its ends changes nothing;
      in particular `Strip` is idempotent. */
  lemma StripOfStripped(s: string)
    requires IsStripped(s)
    ensures Strip(s) == s
  {
    if s != [] {
      assert LeadingSpaces(s) == 0 && TrailingSpaces(s) == 0;
      assert s[0..|s|] == s;
    }
  }

  /** Whitespace only. */
  predicate Blank(w: string) {
    forall i :: 0 <= i < |w| ==> IsSpace(w[i])
  }

  /** `k` spaces. */
  function Spaces(k: nat): (r: string)
    ensures |r| == k && Blank(r)
  {
    seq(k, _ => ' ')
  }

  lemma {:induction false} LeadingSpacesAfterBlank(w: string, u: string)
    requires Blank(w) && u != [] && !IsSpace(u[0])
    ensures LeadingSpaces(w + u) == |w|
  {
    if w != [] {
      var s := w + u;
      assert s[0] == w[0];
      assert s[1..] == w[1..] + u;
      LeadingSpacesAfterBlank(w[1..], u);
    } else {
      assert w + u == u;
    }
  }

  /** Whitespace at the end of `p + u` is whitespace at the end of `u`
      when `u` starts with something else. */
  lemma {:induction false} TrailingSpacesAfter(p: string, u: string)
    requires u != [] && !IsSpace(u[0])
    ensures TrailingSpaces(p + u) == TrailingSpaces(u)
  {
    var s := p + u;
    assert s[|s| - 1] == u[|u| - 1];
    if IsSpace(u[|u| - 1]) {
      var init := u[..|u| - 1];
      assert s[..|s| - 1] == p + init;
      TrailingSpacesAfter(p, init);
    }
  }

  /** Whitespace in front of a text that starts with a non-whitespace
      character is stripped away with the text's own trailing whitespace. */
  lemma {:induction false} StripAfterBlank(w: string, u: string)
    requires Blank(w) && u != [] && !IsSpace(u[0])
    ensures Strip(w + u) == Strip(u)
  {
    var s := w + u;
    LeadingSpacesAfterBlank(w, u);
    TrailingSpacesAfter(w, u);
    var n, k := TrailingSpaces(u), |w|;
    assert LeadingSpaces(u) == 0;
    StripBounds(u);
    StripBounds(s);
    assert s[k..] == u;
    assert s[k..|s| - n] == s[k..][..|u| - n];
  }

  /** A head that starts with a non-whitespace character survives `strip`
      whole when the text after it also starts with one. */
  lemma {:induction false} StripKeepsHead(p: string, u: string)
    requires p != [] && !IsSpace(p[0])
    requires u != [] && !IsSpace(u[0])
    ensures Strip(p + u) == p + Strip(u)
  {
    var s := p + u;
    assert s[0] == p[0];
    TrailingSpacesAfter(p, u);
    var n := TrailingSpaces(u);
    assert LeadingSpaces(u) == 0 && LeadingSpaces(s) == 0;
    StripBounds(u);
    StripBounds(s);
    assert s[0..|s| - n] == p + u[0..|u| - n];
  }

  predicate StartsWith(s: string, prefix: string) {
    |prefix| <= |s| && s[..|prefix|] == prefix
  }

  /** `sub in s`. */
  predicate Contains(s: string, sub: string)
    decreases |s|
  {
    StartsWith(s, sub) || (s != [] && Contains(s[1..], sub))
  }

  /** The index of the first line break in `s`, or `|s|`. */
  function BreakIndex(s: string): (i: nat)
    ensures i <= |s|
    ensures NoLineBreak(s[..i])
    ensures i < |s| ==> IsLineBreak(s[i])
  {
    if s == [] || IsLineBreak(s[0]) then 0
    else
      var k := BreakIndex(s[1..]);
      assert s[..k + 1] == [s[0]] + s[1..][..k];
      1 + k
  }

  /** The index of the first whitespace character in `s`, or `|s|`. */
  function SpaceIndex(s: string): (i: nat)
    ensures i <= |s|
    ensures NoSpace(s[..i])
    ensures i < |s| ==> IsSpace(s[i])
  {
    if s == [] || IsSpace(s[0]) then 0
    else
      var k := SpaceIndex(s[1..]);
      assert s[..k + 1] == [s[0]] + s[1..][..k];
      1 + k
  }

  /** The index of the first `c` in `s` (`s.find(c)`), or `|s|`. */
  function IndexOf(s: string, c: char): (i: nat)
    ensures i <= |s|
    ensures forall j :: 0 <= j < i ==> s[j] != c
    ensures i < |s| ==> s[i] == c
  {
    if s == [] || s[0] == c then 0 else 1 + IndexOf(s[1..], c)
  }

  /** `s.split(c, 1)[1]`: what follows the first `c`, or `None` where Python
      raises `IndexError` because `s` has no `c`. */
  function AfterFirst(s: string, c: char): (r: Option<string>)
    ensures r.None? <==> c !in s
    ensures r.Some? ==>
      var k := |s| - |r.value| - 1;
      0 <= k && s == s[..k] + [c] + r.value && c !in s[..k]
  {
    var i := IndexOf(s, c);
    if i == |s| then None
    else
      assert s == s[..i] + [c] + s[i + 1..];
      Some(s[i + 1..])
  }

  /** `c` occurs in `prefix` exactly once, as its last character. */
  predicate OnlyAtEnd(prefix: string, c: char) {
    prefix != [] && prefix[|prefix| - 1] == c && c !in prefix[..|prefix| - 1]
  }

  /** When `s` starts with a prefix whose only `c` is its last character,
      `s.split(c, 1)[1]` is what follows the prefix. */
  lemma AfterFirstPrefix(s: string, prefix: string, c: char)
    requires StartsWith(s, prefix) && OnlyAtEnd(prefix, c)
    ensures AfterFirst(s, c) == Some(s[|prefix|..])
  {
    var i := IndexOf(s, c);
    assert s[|prefix| - 1] == c;
    assert forall j :: 0 <= j < |prefix| - 1 ==> s[j] == prefix[..|prefix| - 1][j];
  }

  /** `"".join(parts)`. */
  function Concat(parts: seq<string>): string {
    if parts == [] then "" else parts[0] + Concat(parts[1..])
  }

  /** `sep.join(parts)` for a one-character separator. */
  function Join(parts: seq<string>, sep: char): string {
    if parts == [] then ""
    else if |parts| == 1 then parts[0]
    else parts[0] + [sep] + Join(parts[1..], sep)
  }

  /** The characters of `s` that do not satisfy `p`, in order. */
  function Without(s: string, p: char -> bool): (r: string)
    ensures |r| <= |s|
  {
    if s == [] then "" else (if p(s[0]) then "" else [s[0]]) + Without(s[1..], p)
  }

  lemma {:induction false} WithoutAppend(a: string, b: string, p: char -> bool)
    ensures Without(a + b, p) == Without(a, p) + Without(b, p)
  {
    if a != [] {
      assert (a + b)[0] == a[0];
      assert (a + b)[1..] == a[1..] + b;
      WithoutAppend(a[1..], b, p);
      calc {
        Without(a + b, p);
        (if p(a[0]) then "" else [a[0]]) + Without(a[1..] + b, p);
        (if p(a[0]) then "" else [a[0]]) + (Without(a[1..], p) + Without(b, p));
        Without(a, p) + Without(b, p);
      }
    } else {
      assert a + b == b;
    }
  }

  lemma {:induction false} WithoutNothing(a: string, p: char -> bool)
    requires forall i :: 0 <= i < |a| ==> !p(a[i])
    ensures Without(a, p) == a
  {
    if a != [] {
      WithoutNothing(a[1..], p);
    }
  }

  lemma {:induction false} WithoutAll(a: string, p: char -> bool)
    requires forall i :: 0 <= i < |a| ==> p(a[i])
    ensures Without(a, p) == ""
  {
    if a != [] {
      WithoutAll(a[1..], p);
    }
  }

  /** `s.splitlines()`: the text between line breaks, with no empty last line
      when `s` ends in a break, and `\r\n` taken as one break. */
  function SplitLines(s: string): (lines: seq<string>)
    ensures forall k :: 0 <= k < |lines| ==> NoLineBreak(lines[k])
    ensures |lines| <= |s|
    decreases |s|
  {
    if s == [] then []
    else
      var i := BreakIndex(s);
      if i == |s| then [s]
      else
        var next := if s[i] == '\r' && i + 1 < |s| && s[i + 1] == '\n' then i + 2 else i + 1;
        [s[..i]] + SplitLines(s[next..])
  }

  /** `splitlines` ends the first line at the first break: a line without
      breaks, a `\n` and the rest give that line and then the rest's
      lines. */
  lemma SplitLinesCut(line: string, rest: string)
    requires NoLineBreak(line)
    ensures SplitLines(line + "\n" + rest) == [line] + SplitLines(rest)
  {
    var s := line + "\n" + rest;
    var i := BreakIndex(s);
    assert |line| < i ==> IsLineBreak(s[..i][|line|]);
    assert i == |line| && s[i] == '\n';
    assert s[..i] == line;
    assert s[i + 1..] == rest;
  }

  /** `'\n'.join(lines).splitlines() == lines` for lines without breaks
      whose last line is not empty (an empty last line leaves only a
      trailing break, which `splitlines` drops). */
  lemma {:induction false} SplitLinesJoin(lines: seq<string>)
    requires lines != [] && lines[|lines| - 1] != ""
    requires forall k :: 0 <= k < |lines| ==> NoLineBreak(lines[k])
    ensures SplitLines(Join(lines, '\n')) == lines
  {
    if |lines| == 1 {
      SplitLinesOneLine(lines[0]);
    } else {
      var rest := lines[1..];
      assert rest[|rest| - 1] == lines[|lines| - 1];
      SplitLinesJoin(rest);
      assert Join(lines, '\n') == lines[0] + "\n" + Join(rest, '\n');
      SplitLinesCut(lines[0], Join(rest, '\n'));
      assert lines == [lines[0]] + rest;
    }
  }

  /** Removing the characters `p` selects from `s`, cut as a head free of
      them, a middle made only of them and a tail, leaves the head and what
      is left of the tail. */
  lemma {:induction false} WithoutAroundRun(s: string, i: nat, j: nat, p: char -> bool)
    requires i <= j <= |s|
    requires forall k :: 0 <= k < i ==> !p(s[k])
    requires forall k :: i <= k < j ==> p(s[k])
    ensures Without(s, p) == s[..i] + Without(s[j..], p)
  {
    var head, mid, tail := s[..i], s[i..j], s[j..];
    assert s == head + mid + tail;
    assert forall k :: 0 <= k < |head| ==> !p(head[k]) by {
      assert forall k :: 0 <= k < |head| ==> head[k] == s[k];
    }
    assert forall k :: 0 <= k < |mid| ==> p(mid[k]) by {
      assert forall k :: 0 <= k < |mid| ==> mid[k] == s[i + k];
    }
    WithoutNothing(head, p);
    WithoutAll(mid, p);
    WithoutAppend(head + mid, tail, p);
    WithoutAppend(head, mid, p);
  }

  /** Nothing but line breaks is lost by `splitlines`: gluing the lines back
      together gives `s` with its line-break characters removed. */
  lemma {:induction false} SplitLinesConcat(s: string)
    ensures Concat(SplitLines(s)) == Without(s, IsLineBreak)
    decreases |s|
  {
    if s != [] {
      var i := BreakIndex(s);
      if i == |s| {
        assert s[..i] == s;
        WithoutNothing(s, IsLineBreak);
        assert SplitLines(s) == [s];
        assert Concat([s]) == s + Concat([]);
      } else {
        var next := if s[i] == '\r' && i + 1 < |s| && s[i + 1] == '\n' then i + 2 else i + 1;
        SplitLinesConcat(s[next..]);
        SplitLinesBreak(s, i, next);
      }
    }
  }

  /** One step of `SplitLinesConcat`: the first line, its break, and the
      lines after it. */
  lemma SplitLinesBreak(s: string, i: nat, next: nat)
    requires i == BreakIndex(s) < |s|
    requires next == if s[i] == '\r' && i + 1 < |s| && s[i + 1] == '\n' then i + 2 else i + 1
    requires Concat(SplitLines(s[next..])) == Without(s[next..], IsLineBreak)
    ensures Concat(SplitLines(s)) == Without(s, IsLineBreak)
  {
    SplitLinesHead(s, i, next);
    BreakRemoved(s, i, next);
  }

  /** The first line comes before the lines that follow its break. */
  lemma SplitLinesHead(s: string, i: nat, next: nat)
    requires i == BreakIndex(s) < |s|
    requires next == if s[i] == '\r' && i + 1 < |s| && s[i + 1] == '\n' then i + 2 else i + 1
    ensures Concat(SplitLines(s)) == s[..i] + Concat(SplitLines(s[next..]))
  {
    var rest := SplitLines(s[next..]);
    assert SplitLines(s) == [s[..i]] + rest;
    assert ([s[..i]] + rest)[1..] == rest;
  }

  /** Removing line breaks keeps the first line and drops the break after it. */
  lemma BreakRemoved(s: string, i: nat, next: nat)
    requires i == BreakIndex(s) < |s|
    requires next == if s[i] == '\r' && i + 1 < |s| && s[i + 1] == '\n' then i + 2 else i + 1
    ensures Without(s, IsLineBreak) == s[..i] + Without(s[next..], IsLineBreak)
  {
    forall k | 0 <= k < i ensures !IsLineBreak(s[k]) {
      assert s[k] == s[..i][k];
    }
    forall k | i <= k < next ensures IsLineBreak(s[k]) {
      if k > i {
        assert k == i + 1 && s[k] == '\n';
      }
    }
    WithoutAroundRun(s, i, next, IsLineBreak);
  }

  /** `s.split(sep)` for a one-character separator: always at least one part,
      and no part holds the separator. */
  function SplitOn(s: string, sep: char): (parts: seq<string>)
    ensures |parts| >= 1
    ensures forall k :: 0 <= k < |parts| ==> sep !in parts[k]
    decreases |s|
  {
    var i := IndexOf(s, sep);
    if i == |s| then [s] else [s[..i]] + SplitOn(s[i + 1..], sep)
  }

  /** `sep.join(s.split(sep)) == s`. */
  lemma {:induction false} JoinSplitOn(s: string, sep: char)
    ensures Join(SplitOn(s, sep), sep) == s
    decreases |s|
  {
    var i := IndexOf(s, sep);
    var parts := SplitOn(s, sep);
    if i < |s| {
      var rest := SplitOn(s[i + 1..], sep);
      assert parts == [s[..i]] + rest;
      assert parts[0] == s[..i] && parts[1..] == rest && |parts| >= 2;
      assert Join(parts, sep) == s[..i] + [sep] + Join(rest, sep);
      JoinSplitOn(s[i + 1..], sep);
      assert s == s[..i] + [sep] + s[i + 1..];
    } else {
      assert parts == [s];
    }
  }

  /** `s.split()`: the maximal runs of non-whitespace characters. */
  function SplitWs(s: string): (words: seq<string>)
    ensures forall k :: 0 <= k < |words| ==> words[k] != [] && NoSpace(words[k])
    decreases |s|
  {
    var t := TrimStart(s);
    if t == [] then []
    else
      var i := SpaceIndex(t);
      [t[..i]] + SplitWs(t[i..])
  }

  /** `lstrip` drops a whole run of leading whitespace. */
  lemma {:induction false} TrimStartBlank(ws: string, rest: string)
    requires Blank(ws)
    ensures TrimStart(ws + rest) == TrimStart(rest)
  {
    if ws != [] {
      assert ws + rest == [ws[0]] + (ws[1..] + rest);
      TrimStartSpace(ws[0], ws[1..] + rest);
      TrimStartBlank(ws[1..], rest);
    } else {
      assert ws + rest == rest;
    }
  }

  /** Leading whitespace does not change the words. */
  lemma SplitWsAfterBlank(ws: string, rest: string)
    requires Blank(ws)
    ensures SplitWs(ws + rest) == SplitWs(rest)
  {
    TrimStartBlank(ws, rest);
  }

  /** `split()` ends a word at the whitespace that follows it: a word, a
      run of whitespace and the rest give that word and then the rest's
      words. */
  lemma SplitWsCut(w: string, ws: string, rest: string)
    requires w != [] && NoSpace(w)
    requires ws != [] && Blank(ws)
    ensures SplitWs(w + ws + rest) == [w] + SplitWs(rest)
  {
    var s := w + ws + rest;
    assert s[0] == w[0];
    TrimStartNoLead(s);
    forall j | 0 <= j < |w| ensures !IsSpace(s[j]) {
      assert s[j] == w[j];
    }
    assert s[|w|] == ws[0];
    SpaceIndexAt(s, |w|);
    assert s[..|w|] == w;
    assert s[|w|..] == ws + rest;
    SplitWsAfterBlank(ws, rest);
  }

  /** Leading whitespace is all that `TrimStart` removes. */
  lemma WithoutTrimStart(s: string)
    ensures Without(TrimStart(s), IsSpace) == Without(s, IsSpace)
  {
    var t := TrimStart(s);
    var a := LeadingSpaces(s);
    LeadingAreSpaces(s);
    assert s == s[..a] + t;
    WithoutAppend(s[..a], t, IsSpace);
    WithoutAll(s[..a], IsSpace);
  }

  /** Only whitespace is lost by `split()`. */
  lemma {:induction false} SplitWsConcat(s: string)
    ensures Concat(SplitWs(s)) == Without(s, IsSpace)
    decreases |s|
  {
    var t := TrimStart(s);
    WithoutTrimStart(s);
    if t != [] {
      var i := SpaceIndex(t);
      assert t == t[..i] + t[i..];
      WithoutAppend(t[..i], t[i..], IsSpace);
      WithoutNothing(t[..i], IsSpace);
      SplitWsConcat(t[i..]);
      var words := SplitWs(s);
      assert words == [t[..i]] + SplitWs(t[i..]);
      assert words[0] == t[..i] && words[1..] == SplitWs(t[i..]);
      assert Concat(words) == t[..i] + Concat(SplitWs(t[i..]));
    }
  }

  predicate IsDigit(c: char) {
    '0' <= c <= '9'
  }

  /** Position `i` of `s` holds a digit, or an underscore with a digit
      right after it. */
  predicate DigitOrJoiner(s: string, i: nat)
    requires i < |s|
  {
    IsDigit(s[i]) || (s[i] == '_' && i + 1 < |s| && IsDigit(s[i + 1]))
  }

  /** The digit part accepted by `int(str)`: ASCII digits, where an
      underscore may stand only between two digits. */
  predicate IsDigitString(s: string) {
    && |s| > 0
    && IsDigit(s[0])
    && forall i :: 0 <= i < |s| ==> DigitOrJoiner(s, i)
  }

  /** The decimal value of a digit string, underscores ignored. */
  function DigitsValue(s: string): nat {
    if s == [] then 0
    else
      var c := s[|s| - 1];
      if c == '_' then DigitsValue(s[..|s| - 1])
      else 10 * DigitsValue(s[..|s| - 1]) + (if IsDigit(c) then c as int - '0' as int else 0)
  }

  /** `int(s)`, with `None` where Python raises `ValueError`: surrounding
      whitespace, an optional sign, then a digit string. */
  function ParseInt(s: string): Option<int> {
    ParseSigned(Strip(s))
  }

  /** `int(t)` for a text with no whitespace at its ends. */
  function ParseSigned(t: string): Option<int> {
    if |t| > 0 && (t[0] == '-' || t[0] == '+') then
      if IsDigitString(t[1..]) then
        var v: int := DigitsValue(t[1..]);
        Some(if t[0] == '-' then -v else v)
      else None
    else if IsDigitString(t) then Some(DigitsValue(t))
    else None
  }

  /** `str(n)` for a natural number. */
  function ShowNat(n: nat): string
    decreases n
  {
    (if n < 10 then "" else ShowNat(n / 10)) + [('0' as int + n % 10) as char]
  }

  /** `str(n)`. */
  function ShowInt(n: int): string {
    if n < 0 then "-" + ShowNat(-n) else ShowNat(n)
  }

  lemma {:induction false} ShowNatDigits(n: nat)
    ensures |ShowNat(n)| > 0
    ensures forall i :: 0 <= i < |ShowNat(n)| ==> IsDigit(ShowNat(n)[i])
    ensures DigitsValue(ShowNat(n)) == n
    decreases n
  {
    var d := [('0' as int + n % 10) as char];
    if n < 10 {
      assert ShowNat(n) == d;
      assert d[..0] == [];
    } else {
      ShowNatDigits(n / 10);
      var p := ShowNat(n / 10);
      assert ShowNat(n) == p + d;
      assert (p + d)[..|p|] == p;
    }
  }

  /** `str(n)` is a digit string, possibly after a minus sign, so it has no
      whitespace at its ends. */
  lemma ShowIntStripped(n: int)
    ensures IsStripped(ShowInt(n))
  {
    var m := if n < 0 then -n else n;
    ShowNatDigits(m);
    var t := ShowInt(n);
    assert !IsSpace(t[|t| - 1]);
  }

  /** `int(str(n)) == n`: the count a jail row displays reads back as the
      number it was made from. */
  lemma ParseShowInt(n: int)
    ensures ParseInt(ShowInt(n)) == Some(n)
  {
    var m := if n < 0 then -n else n;
    ShowNatDigits(m);
    var digits := ShowNat(m);
    var t := ShowInt(n);
    ShowIntStripped(n);
    StripOfStripped(t);
    assert ParseInt(t) == ParseSigned(t);
    ParseSignedDigits(digits);
    if n < 0 {
      assert t == "-" + digits;
    } else {
      assert t == digits;
    }
  }

  /** `int` reads a digit string, with or without a minus sign in front. */
  lemma ParseSignedDigits(digits: string)
    requires |digits| > 0 && forall i :: 0 <= i < |digits| ==> IsDigit(digits[i])
    ensures ParseSigned(digits) == Some(DigitsValue(digits) as int)
    ensures ParseSigned("-" + digits) == Some(-(DigitsValue(digits) as int))
  {
    assert IsDigitString(digits);
    assert digits[0] != '-' && digits[0] != '+';
    assert ("-" + digits)[1..] == digits;
  }

  /** `c.upper()` for an ASCII letter; every other character is kept. */
  function UpperChar(c: char): char {
    if 'a' <= c <= 'z' then (c as int - 32) as char else c
  }

  /** `s.upper()`, with the ASCII case mapping. */
  function Upper(s: string): (r: string)
    ensures |r| == |s|
    ensures forall i :: 0 <= i < |s| ==> r[i] == UpperChar(s[i])
  {
    if s == [] then "" else [UpperChar(s[0])] + Upper(s[1..])
  }

  /** `upper()` leaves a string without lower-case letters as it is. */
  lemma UpperKeepsCapitals(s: string)
    requires forall i :: 0 <= i < |s| ==> !('a' <= s[i] <= 'z')
    ensures Upper(s) == s
  {
    assert forall i :: 0 <= i < |s| ==> Upper(s)[i] == s[i];
  }

  /** The index of the first element satisfying `p`, if any. */
  function FirstIndex<T>(s: seq<T>, p: T -> bool): (r: Option<nat>)
    ensures r.None? ==> forall j :: 0 <= j < |s| ==> !p(s[j])
    ensures r.Some? ==> r.value < |s| && p(s[r.value]) && forall j :: 0 <= j < r.value ==> !p(s[j])
  {
    if s == [] then None
    else if p(s[0]) then Some(0)
    else match FirstIndex(s[1..], p)
      case None => None
      case Some(k) => Some(k + 1)
  }

  /** The index of the last element satisfying `p`, if any. */
  function LastIndex<T>(s: seq<T>, p: T -> bool): (r: Option<nat>)
    ensures r.None? ==> forall j :: 0 <= j < |s| ==> !p(s[j])
    ensures r.Some? ==> r.value < |s| && p(s[r.value]) && forall j :: r.value < j < |s| ==> !p(s[j])
  {
    if s == [] then None
    else if p(s[|s| - 1]) then Some(|s| - 1)
    else LastIndex(s[..|s| - 1], p)
  }

  /** `FirstIndex` finds an element that satisfies `p` with none before it. */
  lemma FirstIndexAt<T>(s: seq<T>, p: T -> bool, k: nat)
    requires k < |s| && p(s[k])
    requires forall j :: 0 <= j < k ==> !p(s[j])
    ensures FirstIndex(s, p) == Some(k)
  {
    var r := FirstIndex(s, p);
    assert r.Some?;
    assert !(r.value < k) && !(k < r.value);
  }

  /** `LastIndex` finds an element that satisfies `p` with none after it. */
  lemma LastIndexAt<T>(s: seq<T>, p: T -> bool, k: nat)
    requires k < |s| && p(s[k])
    requires forall j :: k < j < |s| ==> !p(s[j])
    ensures LastIndex(s, p) == Some(k)
  {
    var r := LastIndex(s, p);
    assert r.Some?;
    assert !(r.value < k) && !(k < r.value);
  }

  /** `FirstIndex` finds nothing where no element satisfies `p`. */
  lemma FirstIndexNone<T>(s: seq<T>, p: T -> bool)
    requires forall j :: 0 <= j < |s| ==> !p(s[j])
    ensures FirstIndex(s, p) == None
  {
  }

  /** Scanning one more element that fails `p` still finds nothing. */
  lemma FirstIndexPast<T>(s: seq<T>, p: T -> bool, i: nat)
    requires i < |s| && FirstIndex(s[..i], p) == None && !p(s[i])
    ensures FirstIndex(s[..i + 1], p) == None
  {
    var t := s[..i + 1];
    forall j | 0 <= j < |t| ensures !p(t[j]) {
      if j < i {
        assert t[j] == s[..i][j];
      }
    }
    FirstIndexNone(t, p);
  }

  /** The first element that satisfies `p` after a stretch that has none. */
  lemma FirstIndexFound<T>(s: seq<T>, p: T -> bool, i: nat)
    requires i < |s| && FirstIndex(s[..i], p) == None && p(s[i])
    ensures FirstIndex(s, p) == Some(i)
  {
    forall j | 0 <= j < i ensures !p(s[j]) {
      assert s[j] == s[..i][j];
    }
    FirstIndexAt(s, p, i);
  }

  /** In `before + [x] + after`, `x` is the first element satisfying `p`
      when nothing in `before` does. */
  lemma FirstIndexAfter<T>(before: seq<T>, x: T, after: seq<T>, p: T -> bool)
    requires forall j :: 0 <= j < |before| ==> !p(before[j])
    requires p(x)
    ensures FirstIndex(before + [x] + after, p) == Some(|before|)
  {
    var s := before + [x] + after;
    assert s[|before|] == x;
    forall j | 0 <= j < |before| ensures !p(s[j]) {
      assert s[j] == before[j];
    }
    FirstIndexAt(s, p, |before|);
  }

  /** In `before + [x] + after`, `x` is the last element satisfying `p`
      when nothing in `after` does. */
  lemma {:induction false} LastIndexBefore<T>(before: seq<T>, x: T, after: seq<T>, p: T -> bool)
    requires p(x)
    requires forall j :: 0 <= j < |after| ==> !p(after[j])
    ensures LastIndex(before + [x] + after, p) == Some(|before|)
  {
    var s := before + [x] + after;
    assert s[|before|] == x;
    forall j | |before| < j < |s| ensures !p(s[j]) {
      assert s[j] == after[j - |before| - 1];
    }
    LastIndexAt(s, p, |before|);
  }

  /** `IndexOf` finds the first `c`. */
  lemma IndexOfAt(s: string, c: char, k: nat)
    requires k <= |s| && (k < |s| ==> s[k] == c)
    requires forall j :: 0 <= j < k ==> s[j] != c
    ensures IndexOf(s, c) == k
  {
    var i := IndexOf(s, c);
    assert !(i < k) && !(k < i);
  }

  /** `SpaceIndex` finds the end of the leading run of non-whitespace. */
  lemma {:induction false} SpaceIndexAt(s: string, k: nat)
    requires k <= |s| && (k < |s| ==> IsSpace(s[k]))
    requires forall j :: 0 <= j < k ==> !IsSpace(s[j])
    ensures SpaceIndex(s) == k
  {
    if k > 0 {
      assert !IsSpace(s[0]);
      forall j | 0 <= j < k - 1 ensures !IsSpace(s[1..][j]) {
        assert s[1..][j] == s[j + 1];
      }
      if k < |s| {
        assert s[1..][k - 1] == s[k];
      }
      SpaceIndexAt(s[1..], k - 1);
    }
  }

  /** A non-empty sequence is its first element followed by the rest. */
  lemma HeadTail<T>(s: seq<T>)
    requires s != []
    ensures [s[0]] + s[1..] == s
  {
  }

  /** `sub in s` holds when `sub` starts at some position of `s`. */
  lemma {:induction false} ContainsAt(s: string, sub: string, k: nat)
    requires k <= |s| && StartsWith(s[k..], sub)
    ensures Contains(s, sub)
    decreases k
  {
    if k == 0 {
      assert s[0..] == s;
    } else {
      assert s[1..][k - 1..] == s[k..];
      ContainsAt(s[1..], sub, k - 1);
    }
  }

  /** A non-empty text without line breaks is a single line. */
  lemma SplitLinesOneLine(s: string)
    requires s != [] && NoLineBreak(s)
    ensures SplitLines(s) == [s]
  {
    assert BreakIndex(s) == |s|;
  }

  /** `[f(x) for x in s]`, built the way a loop appends to a list. */
  function MapAll<A, B>(s: seq<A>, f: A -> B): (r: seq<B>)
    ensures |r| == |s|
  {
    if s == [] then [] else MapAll(s[..|s| - 1], f) + [f(s[|s| - 1])]
  }

  /** Element `k` of the comprehension is `f` of element `k`. */
  lemma {:induction false} MapAllAt<A, B>(s: seq<A>, f: A -> B)
    ensures forall k :: 0 <= k < |s| ==> MapAll(s, f)[k] == f(s[k])
  {
    if s != [] {
      var init := s[..|s| - 1];
      MapAllAt(init, f);
      assert MapAll(s, f) == MapAll(init, f) + [f(s[|s| - 1])];
      forall k | 0 <= k < |init| ensures MapAll(s, f)[k] == f(s[k]) {
        assert s[k] == init[k];
      }
    }
  }

  /** The comprehension over two stretches is the two comprehensions, one
      after the other. */
  lemma {:induction false} MapAllAppend<A, B>(a: seq<A>, b: seq<A>, f: A -> B)
    ensures MapAll(a + b, f) == MapAll(a, f) + MapAll(b, f)
    decreases |b|
  {
    if b == [] {
      assert a + b == a;
    } else {
      var b' := b[..|b| - 1];
      assert (a + b)[..|a + b| - 1] == a + b';
      assert (a + b)[|a + b| - 1] == b[|b| - 1];
      MapAllAppend(a, b', f);
    }
  }
}
