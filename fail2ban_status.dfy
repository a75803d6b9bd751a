/** Reading the text `fail2ban-client` prints: the jail list of `status`,
    and the `Currently banned:` count and `Banned IP list:` addresses of
    `status <jail>`. Each reader scans the output line by line for one
    label and falls back to a default when the label is absent or its value
    does not parse. */
module Fail2BanStatus {
  import opened Wrappers
  import opened PyText

  /** How a `fail2ban-client` run ends: normally with its output, with a
      non-zero exit status and the output captured so far (`None` when none
      was captured), or without the executable being found. */
  datatype CommandResult = Succeeded(output: string) | Failed(code: int, captured: Option<string>) | NotFound

  /** `fail2ban-client` as the tab sees it: the result of running it with
      the given arguments. */
  type Client = seq<string> -> CommandResult

  /** `_run_fb`: the text to parse. A failed run yields whatever it printed
      and a missing executable yields nothing; neither raises. */
  function RunFb(r: CommandResult): string {
    match r
    case Succeeded(out) => out
    case Failed(_, out) => out.GetOr("")
    case NotFound => ""
  }

  const JailListMarker: string := "Jail list"
  const BannedCountLabel: string := "Currently banned:"
  const BannedListLabel: string := "Banned IP list:"
  /** How `fail2ban-client status` introduces its jail list. */
  const JailListLabel: string := "`- Jail list:"

  /** Each label's only colon is its last character, so `split(':', 1)`
      of a line that starts with it cuts right after the label; none holds
      a line break, and the two `status <jail>` labels start with a letter. */
  lemma JailListLabelShape()
    ensures OnlyAtEnd(JailListLabel, ':') && NoLineBreak(JailListLabel)
  {
  }

  lemma BannedCountLabelShape()
    ensures OnlyAtEnd(BannedCountLabel, ':') && NoLineBreak(BannedCountLabel)
    ensures !IsSpace(BannedCountLabel[0])
  {
  }

  lemma BannedListLabelShape()
    ensures OnlyAtEnd(BannedListLabel, ':') && NoLineBreak(BannedListLabel)
    ensures !IsSpace(BannedListLabel[0])
  {
  }

  /** The jail-list label names the `Jail list` marker. */
  lemma JailLabelHasMarker(c: char, value: string)
    ensures HasJailMarker(Labelled(JailListLabel, c, value))
  {
    var line := Labelled(JailListLabel, c, value);
    assert JailListLabel[3..12] == JailListMarker;
    var at := line[3..];
    forall j | 0 <= j < |JailListMarker| ensures at[j] == JailListMarker[j] {
      assert at[j] == JailListLabel[3 + j];
    }
    assert at[..|JailListMarker|] == JailListMarker;
    ContainsAt(line, JailListMarker, 3);
  }

  /** A labelled value without line breaks is one line of output. */
  lemma LabelledOneLine(tag: string, c: char, value: string)
    requires NoLineBreak(tag) && !IsLineBreak(c) && NoLineBreak(value)
    ensures SplitLines(Labelled(tag, c, value)) == [Labelled(tag, c, value)]
  {
    var line := Labelled(tag, c, value);
    forall i | 0 <= i < |line| ensures !IsLineBreak(line[i]) {
      if i < |tag| {
        assert line[i] == tag[i];
      } else if i > |tag| {
        assert line[i] == value[i - |tag| - 1];
      }
    }
    SplitLinesOneLine(line);
  }

  /** A line made of a tag, a whitespace character and a value. */
  function Labelled(tag: string, c: char, value: string): string {
    tag + [c] + value
  }

  /** `split(':', 1)[1]` of a labelled line is the whitespace and the value. */
  lemma SplitLabelled(tag: string, c: char, value: string)
    requires OnlyAtEnd(tag, ':')
    ensures AfterFirst(Labelled(tag, c, value), ':') == Some([c] + value)
  {
    var line := Labelled(tag, c, value);
    assert line == tag + ([c] + value);
    assert line[..|tag|] == tag && line[|tag|..] == [c] + value;
    AfterFirstPrefix(line, tag, ':');
  }

  /** A labelled line with a stripped value strips to itself, or to the
      bare tag when the value is empty. */
  lemma StripLabelled(tag: string, c: char, value: string)
    requires OnlyAtEnd(tag, ':') && !IsSpace(tag[0]) && IsSpace(c) && IsStripped(value)
    ensures Strip(Labelled(tag, c, value)) == if value == [] then tag else Labelled(tag, c, value)
  {
    var line := Labelled(tag, c, value);
    if value == [] {
      assert line == tag + [c];
      assert line[..|line| - 1] == tag;
      assert LeadingSpaces(line) == 0;
      assert TrailingSpaces(line) == 1 + TrailingSpaces(tag) == 1;
      assert line[0..|line| - 1] == tag;
    } else {
      assert line[0] == tag[0] && line[|line| - 1] == value[|value| - 1];
      StripOfStripped(line);
    }
  }

  /** After stripping, a labelled line still starts with its label, and the
      stripped text after its first colon is the value. */
  lemma ValueAfterLabel(tag: string, c: char, value: string)
    requires OnlyAtEnd(tag, ':') && !IsSpace(tag[0]) && IsSpace(c) && IsStripped(value)
    ensures StartsWith(Strip(Labelled(tag, c, value)), tag)
    ensures AfterFirst(Strip(Labelled(tag, c, value)), ':').Some?
    ensures Strip(AfterFirst(Strip(Labelled(tag, c, value)), ':').value) == value
  {
    StripLabelled(tag, c, value);
    if value == [] {
      assert tag[..|tag|] == tag;
      AfterFirstPrefix(tag, tag, ':');
      assert tag[|tag|..] == [];
    } else {
      var line := Labelled(tag, c, value);
      assert line[..|tag|] == tag;
      SplitLabelled(tag, c, value);
      StripAfterSpace(c, value);
    }
  }

  /** `'Jail list' in line`. */
  predicate HasJailMarker(line: string) {
    Contains(line, JailListMarker)
  }

  /** `[p.strip() for p in parts if p.strip()]`. */
  function StrippedTokens(parts: seq<string>): (tokens: seq<string>)
    ensures |tokens| <= |parts|
    ensures forall k :: 0 <= k < |tokens| ==> tokens[k] != "" && IsStripped(tokens[k])
  {
    if parts == [] then []
    else
      var t := Strip(parts[0]);
      (if t != "" then [t] else []) + StrippedTokens(parts[1..])
  }

  /** Stripping cuts a slice out of `s`, so it brings in no character that
      `s` lacks. */
  lemma StripKeepsAbsent(s: string, c: char)
    requires c !in s
    ensures c !in Strip(s)
  {
    StripIsSlice(s);
  }

  /** No token holds a character that none of the parts holds. */
  lemma {:induction false} StrippedTokensAvoid(parts: seq<string>, c: char)
    requires forall j :: 0 <= j < |parts| ==> c !in parts[j]
    ensures forall k :: 0 <= k < |StrippedTokens(parts)| ==> c !in StrippedTokens(parts)[k]
  {
    if parts != [] {
      StripKeepsAbsent(parts[0], c);
      StrippedTokensAvoid(parts[1..], c);
    }
  }

  /** Each part strips to its name, none of them empty: the tokens are
      exactly the names. */
  lemma {:induction false} StrippedTokensOfPadded(parts: seq<string>, names: seq<string>)
    requires |parts| == |names|
    requires forall j :: 0 <= j < |parts| ==> Strip(parts[j]) == names[j] && names[j] != ""
    ensures StrippedTokens(parts) == names
  {
    if parts != [] {
      StrippedTokensOfPadded(parts[1..], names[1..]);
      assert names == [names[0]] + names[1..];
    }
  }

  /** The comprehension of fail2ban_tab.py:123 over the stripped text after
      the colon: every jail name is non-empty, has no whitespace at either
      end and holds no comma. */
  function JailTokens(jlist: string): (jails: seq<string>)
    ensures forall k :: 0 <= k < |jails| ==> jails[k] != "" && IsStripped(jails[k]) && ',' !in jails[k]
  {
    var parts := SplitOn(jlist, ',');
    StrippedTokensAvoid(parts, ',');
    StrippedTokens(parts)
  }

  /** The jails named on a `Jail list` line: what follows its first colon,
      stripped and cut at commas; no jails where the line has no colon
      (the `IndexError` the reader catches). */
  function JailsFromLine(line: string): (jails: seq<string>)
    ensures forall k :: 0 <= k < |jails| ==> jails[k] != "" && IsStripped(jails[k]) && ',' !in jails[k]
  {
    match AfterFirst(line, ':')
    case None => []
    case Some(rest) => JailTokens(Strip(rest))
  }

  /** The jail list of a `status` output (lines 117-126): taken from the
      first line naming `Jail list`, empty when there is none. */
  function JailListOf(lines: seq<string>): seq<string> {
    match FirstIndex(lines, HasJailMarker)
    case None => []
    case Some(k) => JailsFromLine(lines[k])
  }

  /** The jail-list loop of `refresh`. */
  method ParseJailList(out: string) returns (jails: seq<string>)
    ensures jails == JailListOf(SplitLines(out))
    ensures forall k :: 0 <= k < |jails| ==> jails[k] != "" && IsStripped(jails[k]) && ',' !in jails[k]
  {
    var lines := SplitLines(out);
    jails := [];
    var i := 0;
    while i < |lines|
      invariant 0 <= i <= |lines|
      invariant FirstIndex(lines[..i], HasJailMarker) == None
      invariant jails == []
    {
      if HasJailMarker(lines[i]) {
        jails := JailsFromLine(lines[i]);
        FirstIndexFound(lines, HasJailMarker, i);
        break;
      }
      FirstIndexPast(lines, HasJailMarker, i);
      i := i + 1;
    }
    if i == |lines| {
      assert lines[..i] == lines;
    }
  }

  /** Only the first `Jail list` line counts: whatever follows it is
      ignored. */
  lemma FirstJailLineWins(before: seq<string>, line: string, after: seq<string>)
    requires forall j :: 0 <= j < |before| ==> !HasJailMarker(before[j])
    requires HasJailMarker(line)
    ensures JailListOf(before + [line] + after) == JailsFromLine(line)
  {
    FirstIndexAfter(before, line, after, HasJailMarker);
  }

  /** `s.strip()` of a whitespace character followed by a stripped string
      is that string. */
  lemma StripAfterSpace(c: char, t: string)
    requires IsSpace(c) && IsStripped(t)
    ensures Strip([c] + t) == t
  {
    var s := [c] + t;
    assert s[1..] == t;
    if t == [] {
      assert LeadingSpaces(s) == 1;
    } else {
      assert LeadingSpaces(s) == 1 && TrailingSpaces(s) == 0;
      assert s[1..|s|] == t;
    }
  }

  /** `sep.join(parts).split(sep) == parts` when no part holds `sep`. */
  lemma {:induction false} SplitOnJoin(parts: seq<string>, sep: char)
    requires parts != []
    requires forall j :: 0 <= j < |parts| ==> sep !in parts[j]
    ensures SplitOn(Join(parts, sep), sep) == parts
  {
    var p := parts[0];
    if |parts| == 1 {
      assert Join(parts, sep) == p;
      IndexOfAt(p, sep, |p|);
    } else {
      var rest := Join(parts[1..], sep);
      var s := p + [sep] + rest;
      assert Join(parts, sep) == s;
      assert forall j :: 0 <= j < |p| ==> s[j] == p[j];
      assert s[|p|] == sep;
      IndexOfAt(s, sep, |p|);
      assert s[..|p|] == p && s[|p| + 1..] == rest;
      SplitOnJoin(parts[1..], sep);
      assert parts == [p] + parts[1..];
    }
  }

  /** `sep.join(parts)` of non-empty parts begins where its first part
      begins and ends where its last part ends. */
  lemma {:induction false} JoinEnds(parts: seq<string>, sep: char)
    requires parts != []
    requires forall j :: 0 <= j < |parts| ==> parts[j] != ""
    ensures Join(parts, sep) != []
    ensures Join(parts, sep)[0] == parts[0][0]
    ensures Join(parts, sep)[|Join(parts, sep)| - 1] == parts[|parts| - 1][|parts[|parts| - 1]| - 1]
  {
    if |parts| > 1 {
      JoinEnds(parts[1..], sep);
      var rest := Join(parts[1..], sep);
      assert Join(parts, sep) == parts[0] + [sep] + rest;
      assert parts[1..][|parts| - 2] == parts[|parts| - 1];
    }
  }

  /** `sep.join(parts)` of stripped, non-empty parts is itself stripped and
      non-empty. */
  lemma JoinStripped(parts: seq<string>, sep: char)
    requires parts != []
    requires forall j :: 0 <= j < |parts| ==> parts[j] != "" && IsStripped(parts[j])
    ensures Join(parts, sep) != [] && IsStripped(Join(parts, sep))
  {
    JoinEnds(parts, sep);
  }

  /** `", ".join(names)`: the jail list as fail2ban prints it, names
      separated by a comma and a space (`a, b, c` in the comment at
      fail2ban_tab.py:116). */
  function CommaSpaced(names: seq<string>): string {
    if names == [] then ""
    else if |names| == 1 then names[0]
    else names[0] + ", " + CommaSpaced(names[1..])
  }

  /** The parts that `", ".join(names)` leaves between its commas: the
      first name, then every later name behind a space. */
  function SpaceLed(names: seq<string>): seq<string> {
    seq(|names|, j requires 0 <= j < |names| => if j == 0 then names[0] else " " + names[j])
  }

  /** `sep.join` of parts whose first part gains a prefix gains that
      prefix. */
  lemma JoinPrefixed(p: string, parts: seq<string>, sep: char)
    requires parts != []
    ensures Join([p + parts[0]] + parts[1..], sep) == p + Join(parts, sep)
  {
    var q := [p + parts[0]] + parts[1..];
    assert q[0] == p + parts[0] && q[1..] == parts[1..];
  }

  /** `", ".join(names)` is the comma join of the space-led parts. */
  lemma {:induction false} CommaSpacedParts(names: seq<string>)
    ensures CommaSpaced(names) == Join(SpaceLed(names), ',')
  {
    if |names| > 1 {
      var rest := names[1..];
      var a := SpaceLed(rest);
      var b := SpaceLed(names);
      CommaSpacedParts(rest);
      assert b[1..] == [" " + a[0]] + a[1..];
      JoinPrefixed(" ", a, ',');
      assert Join(b, ',') == names[0] + [','] + (" " + Join(a, ','));
      assert names[0] + ", " + CommaSpaced(rest) == names[0] + [','] + (" " + CommaSpaced(rest));
    } else if |names| == 1 {
      assert SpaceLed(names) == [names[0]];
    } else {
      assert SpaceLed(names) == [];
    }
  }

  /** A name behind a space holds no comma the name lacks and strips back
      to the name. */
  lemma SpacedNameStrips(n: string)
    requires IsStripped(n) && ',' !in n
    ensures ',' !in " " + n && Strip(" " + n) == n
  {
    assert " " + n == [' '] + n;
    StripAfterSpace(' ', n);
  }

  /** Every space-led part of clean names is comma-free and strips to its
      name. */
  lemma SpaceLedStrips(names: seq<string>)
    requires forall j :: 0 <= j < |names| ==> IsStripped(names[j]) && ',' !in names[j]
    ensures forall j :: 0 <= j < |names| ==> ',' !in SpaceLed(names)[j] && Strip(SpaceLed(names)[j]) == names[j]
  {
    var parts := SpaceLed(names);
    forall j | 0 <= j < |names| ensures ',' !in parts[j] && Strip(parts[j]) == names[j] {
      if j == 0 {
        assert parts[j] == names[0];
        StripOfStripped(names[0]);
      } else {
        assert parts[j] == " " + names[j];
        SpacedNameStrips(names[j]);
      }
    }
  }

  /** The comma join of the space-led parts of non-empty, stripped names
      is stripped: it begins with the first name and ends with the last. */
  lemma SpaceLedJoinStripped(names: seq<string>)
    requires forall j :: 0 <= j < |names| ==> names[j] != "" && IsStripped(names[j])
    ensures IsStripped(Join(SpaceLed(names), ','))
  {
    var parts := SpaceLed(names);
    if names != [] {
      forall j | 0 <= j < |parts| ensures parts[j] != "" {
        assert |parts[j]| >= |names[j]|;
      }
      JoinEnds(parts, ',');
      var last := parts[|parts| - 1];
      assert last[|last| - 1] == names[|names| - 1][|names[|names| - 1]| - 1];
    }
  }

  /** The jail-list line as fail2ban prints it, `` `- Jail list:``, a tab
      and the names joined by a comma and a space, reads back as those
      names, for names that are non-empty, stripped and comma-free. */
  lemma JailListRoundTrip(names: seq<string>)
    requires forall j :: 0 <= j < |names| ==> names[j] != "" && IsStripped(names[j]) && ',' !in names[j]
    ensures JailsFromLine(Labelled(JailListLabel, '\t', CommaSpaced(names))) == names
  {
    CommaSpacedParts(names);
    SpaceLedStrips(names);
    SpaceLedJoinStripped(names);
    JailListPaddedRoundTrip(SpaceLed(names), names);
  }

  /** More generally the reader strips each comma-separated part, so a
      jail-list line whose parts carry any whitespace around the commas
      reads back as the stripped parts, as long as no part is blank and the
      list has no whitespace at its two ends. */
  lemma JailListPaddedRoundTrip(parts: seq<string>, names: seq<string>)
    requires |parts| == |names|
    requires forall j :: 0 <= j < |parts| ==> ',' !in parts[j] && Strip(parts[j]) == names[j] && names[j] != ""
    requires IsStripped(Join(parts, ','))
    ensures JailsFromLine(Labelled(JailListLabel, '\t', Join(parts, ','))) == names
  {
    JailListLabelShape();
    JailsFromPadded(JailListLabel, '\t', parts, names);
  }

  /** The same for any label whose only colon ends it, followed by any
      whitespace character. */
  lemma JailsFromPadded(tag: string, c: char, parts: seq<string>, names: seq<string>)
    requires OnlyAtEnd(tag, ':') && IsSpace(c)
    requires |parts| == |names|
    requires forall j :: 0 <= j < |parts| ==> ',' !in parts[j] && Strip(parts[j]) == names[j] && names[j] != ""
    requires IsStripped(Join(parts, ','))
    ensures JailsFromLine(Labelled(tag, c, Join(parts, ','))) == names
  {
    var joined := Join(parts, ',');
    SplitLabelled(tag, c, joined);
    assert JailsFromLine(Labelled(tag, c, joined)) == JailTokens(Strip([c] + joined));
    StripAfterSpace(c, joined);
    JailTokensOfPadded(parts, names);
  }

  /** Cutting the comma join of padded parts at commas and stripping gives
      the stripped parts. */
  lemma JailTokensOfPadded(parts: seq<string>, names: seq<string>)
    requires |parts| == |names|
    requires forall j :: 0 <= j < |parts| ==> ',' !in parts[j] && Strip(parts[j]) == names[j] && names[j] != ""
    ensures JailTokens(Join(parts, ',')) == names
  {
    if parts == [] {
      assert SplitOn("", ',') == [""];
      assert Strip("") == "";
    } else {
      SplitOnJoin(parts, ',');
      StrippedTokensOfPadded(parts, names);
    }
  }

  /** `l.strip().startswith('Currently banned:')`. */
  predicate IsBannedCountLine(line: string) {
    StartsWith(Strip(line), BannedCountLabel)
  }

  /** The number on a `Currently banned:` line: `int` of the stripped text
      after the first colon, or 0 where `int` raises. The label ends at the
      first colon, so the split always has a second part. */
  function CountFromLine(line: string): int
    requires IsBannedCountLine(line)
  {
    var l := Strip(line);
    BannedCountLabelShape();
    AfterFirstPrefix(l, BannedCountLabel, ':');
    ParseInt(Strip(AfterFirst(l, ':').value)).GetOr(0)
  }

  /** The banned count of a `status <jail>` output (lines 133-142): the
      loop has no `break`, so the last `Currently banned:` line decides;
      0 when there is none. */
  function BannedCountOf(lines: seq<string>): int {
    match LastIndex(lines, IsBannedCountLine)
    case None => 0
    case Some(k) => CountFromLine(lines[k])
  }

  /** Reading one more line: a `Currently banned:` line replaces the count
      read so far. */
  lemma {:induction false} BannedCountStep(lines: seq<string>, i: nat)
    requires i < |lines|
    ensures BannedCountOf(lines[..i + 1]) ==
      if IsBannedCountLine(lines[i]) then CountFromLine(lines[i]) else BannedCountOf(lines[..i])
  {
    var init := lines[..i + 1];
    assert init[..i] == lines[..i];
    assert init[i] == lines[i];
  }

  /** The count loop of `refresh`. */
  method ParseBannedCount(info: string) returns (count: int)
    ensures count == BannedCountOf(SplitLines(info))
  {
    var lines := SplitLines(info);
    count := 0;
    for i := 0 to |lines|
      invariant count == BannedCountOf(lines[..i])
    {
      BannedCountStep(lines, i);
      if IsBannedCountLine(lines[i]) {
        count := CountFromLine(lines[i]);
      }
    }
    assert lines[..|lines|] == lines;
  }

  /** A later `Currently banned:` line overrides every earlier one. */
  lemma LastCountLineWins(before: seq<string>, line: string, after: seq<string>)
    requires IsBannedCountLine(line)
    requires forall j :: 0 <= j < |after| ==> !IsBannedCountLine(after[j])
    ensures BannedCountOf(before + [line] + after) == CountFromLine(line)
  {
    LastIndexBefore(before, line, after, IsBannedCountLine);
  }

  /** A bare count line, `Currently banned:` then a tab and the number
      with nothing before the label, reads back as that number, signs
      included. fail2ban draws this field behind a tree marker, which the
      reader as written does not accept (`TreeCountLineMissed`). */
  lemma BannedCountRoundTrip(n: int)
    ensures IsBannedCountLine(Labelled(BannedCountLabel, '\t', ShowInt(n)))
    ensures CountFromLine(Labelled(BannedCountLabel, '\t', ShowInt(n))) == n
  {
    ShowIntStripped(n);
    BannedCountLabelShape();
    ValueAfterLabel(BannedCountLabel, '\t', ShowInt(n));
    ParseShowInt(n);
  }

  /** A count that `int` rejects reads as 0. */
  lemma UnreadableCountIsZero(line: string)
    requires IsBannedCountLine(line)
    requires ParseInt(Strip(Strip(line)[|BannedCountLabel|..])).None?
    ensures CountFromLine(line) == 0
  {
    BannedCountLabelShape();
    AfterFirstPrefix(Strip(line), BannedCountLabel, ':');
  }

  /** `l.strip().startswith('Banned IP list:')`. */
  predicate IsBannedListLine(line: string) {
    StartsWith(Strip(line), BannedListLabel)
  }

  /** `[w for w in words if w.strip()]`. */
  function NonBlank(words: seq<string>): (kept: seq<string>)
    ensures |kept| <= |words|
    ensures forall k :: 0 <= k < |kept| ==> Strip(kept[k]) != ""
  {
    if words == [] then []
    else (if Strip(words[0]) != "" then [words[0]] else []) + NonBlank(words[1..])
  }

  /** Words from `split()` are never blank, so the filter of line 167 keeps
      them all. */
  lemma {:induction false} NonBlankOfWords(words: seq<string>)
    requires forall k :: 0 <= k < |words| ==> words[k] != "" && NoSpace(words[k])
    ensures NonBlank(words) == words
  {
    if words != [] {
      var w := words[0];
      assert !IsSpace(w[0]) && !IsSpace(w[|w| - 1]);
      StripOfStripped(w);
      NonBlankOfWords(words[1..]);
      assert words == [w] + words[1..];
    }
  }

  /** The addresses on a `Banned IP list:` line (lines 164-167): the
      stripped text after the first colon split at whitespace; none when
      that text is empty. The reader indexes `split(':', 1)[1]` without a
      guard; a line that passed `IsBannedListLine` always has a colon
      (`BannedListLineHasColon`), so the `None` branch is never taken for
      the lines the reader selects. */
  function IpsFromLine(line: string): (ips: seq<string>)
    ensures forall k :: 0 <= k < |ips| ==> ips[k] != "" && NoSpace(ips[k])
  {
    match AfterFirst(Strip(line), ':')
    case None => []
    case Some(after) =>
      var rest := Strip(after);
      if rest == "" then []
      else
        NonBlankOfWords(SplitWs(rest));
        NonBlank(SplitWs(rest))
  }

  /** The label ends at the first colon, so `l.split(':', 1)[1]` of a
      banned-list line is what follows the label. */
  lemma BannedListLineHasColon(line: string)
    requires IsBannedListLine(line)
    ensures AfterFirst(Strip(line), ':') == Some(Strip(line)[|BannedListLabel|..])
  {
    BannedListLabelShape();
    AfterFirstPrefix(Strip(line), BannedListLabel, ':');
  }

  /** The banned addresses of a `status <jail>` output (lines 161-168 and
      211-218): taken from the first `Banned IP list:` line, none when there
      is no such line. */
  function BannedIpsOf(lines: seq<string>): (ips: seq<string>)
    ensures forall k :: 0 <= k < |ips| ==> ips[k] != "" && NoSpace(ips[k])
  {
    match FirstIndex(lines, IsBannedListLine)
    case None => []
    case Some(k) => IpsFromLine(lines[k])
  }

  /** The banned-list loop of `load_banned_for_jail` and `unban_all`. */
  method ParseBannedIps(info: string) returns (ips: seq<string>)
    ensures ips == BannedIpsOf(SplitLines(info))
  {
    var lines := SplitLines(info);
    ips := [];
    var i := 0;
    while i < |lines|
      invariant 0 <= i <= |lines|
      invariant FirstIndex(lines[..i], IsBannedListLine) == None
      invariant ips == []
    {
      if IsBannedListLine(lines[i]) {
        ips := IpsFromLine(lines[i]);
        FirstIndexFound(lines, IsBannedListLine, i);
        break;
      }
      FirstIndexPast(lines, IsBannedListLine, i);
      i := i + 1;
    }
    if i == |lines| {
      assert lines[..i] == lines;
    }
  }

  /** Only the first `Banned IP list:` line counts, even when it is empty. */
  lemma FirstBannedListLineWins(before: seq<string>, line: string, after: seq<string>)
    requires forall j :: 0 <= j < |before| ==> !IsBannedListLine(before[j])
    requires IsBannedListLine(line)
    ensures BannedIpsOf(before + [line] + after) == IpsFromLine(line)
  {
    FirstIndexAfter(before, line, after, IsBannedListLine);
  }

  /** `' '.join(words).split() == words` for non-empty words without
      whitespace. */
  lemma {:induction false} SplitWsJoin(words: seq<string>)
    requires words != []
    requires forall k :: 0 <= k < |words| ==> words[k] != "" && NoSpace(words[k])
    ensures SplitWs(Join(words, ' ')) == words
  {
    var w := words[0];
    var s := Join(words, ' ');
    assert !IsSpace(w[0]);
    if |words| == 1 {
      assert s == w;
      TrimStartNoLead(w);
      SpaceIndexAt(w, |w|);
      assert w[..|w|] == w && w[|w|..] == [];
      assert SplitWs(s) == [w] + SplitWs([]);
    } else {
      var rest := Join(words[1..], ' ');
      assert s == w + " " + rest;
      SplitWsCut(w, " ", rest);
      SplitWsJoin(words[1..]);
      HeadTail(words);
    }
  }

  /** A bare banned-list line, `Banned IP list:` then a tab and the
      addresses separated by spaces with nothing before the label, reads
      back as those addresses. fail2ban draws this field behind a tree
      marker, which the reader as written does not accept
      (`TreeListLineMissed`). */
  lemma BannedListRoundTrip(ips: seq<string>)
    requires forall k :: 0 <= k < |ips| ==> ips[k] != "" && NoSpace(ips[k])
    ensures IsBannedListLine(Labelled(BannedListLabel, '\t', Join(ips, ' ')))
    ensures IpsFromLine(Labelled(BannedListLabel, '\t', Join(ips, ' '))) == ips
  {
    var joined := Join(ips, ' ');
    BannedListLabelShape();
    if ips != [] {
      SpacedWordsReadBack(ips);
    }
    ValueAfterLabel(BannedListLabel, '\t', joined);
  }

  /** Words joined by spaces form a stripped text that `split()` and the
      blank filter turn back into the words. */
  lemma SpacedWordsReadBack(ips: seq<string>)
    requires ips != []
    requires forall k :: 0 <= k < |ips| ==> ips[k] != "" && NoSpace(ips[k])
    ensures Join(ips, ' ') != "" && IsStripped(Join(ips, ' '))
    ensures NonBlank(SplitWs(Join(ips, ' '))) == ips
  {
    forall k | 0 <= k < |ips| ensures IsStripped(ips[k]) {
      assert !IsSpace(ips[k][0]) && !IsSpace(ips[k][|ips[k]| - 1]);
    }
    JoinStripped(ips, ' ');
    SplitWsJoin(ips);
    NonBlankOfWords(ips);
  }

  /** Empty output, which `_run_fb` yields for a missing executable and for
      a failed run that printed nothing, reads as no jails, a count of 0
      and no banned addresses. */
  lemma NoOutputGivesDefaults(r: CommandResult)
    requires r.NotFound? || (r.Failed? && r.captured.GetOr("") == "")
    ensures RunFb(r) == ""
    ensures JailListOf(SplitLines(RunFb(r))) == []
    ensures BannedCountOf(SplitLines(RunFb(r))) == 0
    ensures BannedIpsOf(SplitLines(RunFb(r))) == []
  {
  }

  /** How fail2ban draws the fields of `status <jail>` as a tree: each
      field line is indented and starts with `|- `, or `` `- `` for the last
      field of a group. */
  const TreeBranch: string := "|- "
  const TreeLast: string := "`- "

  predicate IsTreeMarker(m: string) {
    m == TreeBranch || m == TreeLast
  }

  /** A field line drawn as a tree: `k` spaces, a marker, the label, a tab
      and the value. */
  function TreeLine(k: nat, marker: string, tag: string, value: string): string {
    Spaces(k) + marker + Labelled(tag, '\t', value)
  }

  /** The tree line, as written, is never taken for a count line or a list
      line: after `strip` it starts with the marker, not with the label. So
      a `Currently banned:` field drawn this way reads as a count of 0 and a
      `Banned IP list:` field as no addresses. */
  lemma {:induction false} TreeCountLineMissed(k: nat, marker: string, n: int)
    requires IsTreeMarker(marker)
    ensures !IsBannedCountLine(TreeLine(k, marker, BannedCountLabel, ShowInt(n)))
    ensures BannedCountOf([TreeLine(k, marker, BannedCountLabel, ShowInt(n))]) == 0
  {
    BannedCountLabelShape();
    TreeLineStrips(k, marker, BannedCountLabel, ShowInt(n));
  }

  lemma {:induction false} TreeListLineMissed(k: nat, marker: string, ips: seq<string>)
    requires IsTreeMarker(marker)
    ensures !IsBannedListLine(TreeLine(k, marker, BannedListLabel, Join(ips, ' ')))
    ensures BannedIpsOf([TreeLine(k, marker, BannedListLabel, Join(ips, ' '))]) == []
  {
    BannedListLabelShape();
    TreeLineStrips(k, marker, BannedListLabel, Join(ips, ' '));
    var line := TreeLine(k, marker, BannedListLabel, Join(ips, ' '));
    assert FirstIndex([line], IsBannedListLine) == None by {
      FirstIndexPast([line], IsBannedListLine, 0);
      assert [line][..1] == [line];
    }
  }

  /** `strip` of a tree line keeps the marker and strips the labelled
      value. */
  lemma {:induction false} TreeLineStrips(k: nat, marker: string, tag: string, value: string)
    requires IsTreeMarker(marker) && tag != [] && !IsSpace(tag[0])
    ensures Strip(TreeLine(k, marker, tag, value)) == marker + Strip(Labelled(tag, '\t', value))
  {
    var labelled := Labelled(tag, '\t', value);
    assert labelled[0] == tag[0];
    assert Spaces(k) + marker + labelled == Spaces(k) + (marker + labelled);
    StripAfterBlank(Spaces(k), marker + labelled);
    StripKeepsHead(marker, labelled);
  }

  /** The intended reading of a field line: stripped, with a leading tree
      marker and the whitespace after it taken off. */
  function FieldText(line: string): (t: string)
    ensures IsStripped(t)
  {
    var l := Strip(line);
    if StartsWith(l, TreeBranch) || StartsWith(l, TreeLast) then Strip(l[|TreeBranch|..]) else l
  }

  /** A tree line's field text is its labelled value, stripped. */
  lemma {:induction false} FieldTextOfTreeLine(k: nat, marker: string, tag: string, value: string)
    requires IsTreeMarker(marker) && tag != [] && !IsSpace(tag[0])
    ensures FieldText(TreeLine(k, marker, tag, value)) == Strip(Labelled(tag, '\t', value))
  {
    TreeLineStrips(k, marker, tag, value);
    var rest := Strip(Labelled(tag, '\t', value));
    var l := marker + rest;
    assert l[..|marker|] == marker && l[|marker|..] == rest;
    StripOfStripped(rest);
  }

  /** The count reader as intended: `Currently banned:` after the tree
      marker. */
  predicate IsTreeCountLine(line: string) {
    IsBannedCountLine(FieldText(line))
  }

  function TreeCountFromLine(line: string): int
    requires IsTreeCountLine(line)
  {
    CountFromLine(FieldText(line))
  }

  /** The corrected count of a `status <jail>` output: the last field line
      labelled `Currently banned:`, drawn as a tree or not. */
  function TreeBannedCountOf(lines: seq<string>): int {
    match LastIndex(lines, IsTreeCountLine)
    case None => 0
    case Some(k) => TreeCountFromLine(lines[k])
  }

  /** The list reader as intended: `Banned IP list:` after the tree
      marker. */
  predicate IsTreeListLine(line: string) {
    IsBannedListLine(FieldText(line))
  }

  /** The corrected banned list of a `status <jail>` output: the first
      field line labelled `Banned IP list:`. */
  function TreeBannedIpsOf(lines: seq<string>): (ips: seq<string>)
    ensures forall k :: 0 <= k < |ips| ==> ips[k] != "" && NoSpace(ips[k])
  {
    match FirstIndex(lines, IsTreeListLine)
    case None => []
    case Some(k) => IpsFromLine(FieldText(lines[k]))
  }

  /** The corrected reader reads the count fail2ban draws as a tree back
      as that number. */
  lemma {:induction false} TreeCountRoundTrip(k: nat, marker: string, n: int)
    requires IsTreeMarker(marker)
    ensures IsTreeCountLine(TreeLine(k, marker, BannedCountLabel, ShowInt(n)))
    ensures TreeBannedCountOf([TreeLine(k, marker, BannedCountLabel, ShowInt(n))]) == n
  {
    var labelled := Labelled(BannedCountLabel, '\t', ShowInt(n));
    BannedCountLabelShape();
    ShowIntStripped(n);
    FieldTextOfTreeLine(k, marker, BannedCountLabel, ShowInt(n));
    StripLabelled(BannedCountLabel, '\t', ShowInt(n));
    BannedCountRoundTrip(n);
    LastIndexAt([TreeLine(k, marker, BannedCountLabel, ShowInt(n))], IsTreeCountLine, 0);
  }

  /** The corrected reader reads the banned list fail2ban draws as a tree
      back as those addresses. */
  lemma {:induction false} TreeListRoundTrip(k: nat, marker: string, ips: seq<string>)
    requires IsTreeMarker(marker)
    requires forall j :: 0 <= j < |ips| ==> ips[j] != "" && NoSpace(ips[j])
    ensures IsTreeListLine(TreeLine(k, marker, BannedListLabel, Join(ips, ' ')))
    ensures TreeBannedIpsOf([TreeLine(k, marker, BannedListLabel, Join(ips, ' '))]) == ips
  {
    var joined := Join(ips, ' ');
    BannedListLabelShape();
    TreeLineFields(k, marker, BannedListLabel, joined);
    BannedListRoundTrip(ips);
    OneTreeListLine(TreeLine(k, marker, BannedListLabel, joined));
  }

  lemma {:induction false} OneTreeListLine(line: string)
    requires IsTreeListLine(line)
    ensures TreeBannedIpsOf([line]) == IpsFromLine(FieldText(line))
  {
    FirstIndexFound([line], IsTreeListLine, 0);
  }

  /** On a tree line the corrected readers see what the readers as written
      see on the bare labelled line. */
  lemma {:induction false} TreeLineFields(k: nat, marker: string, tag: string, value: string)
    requires IsTreeMarker(marker) && tag != [] && !IsSpace(tag[0])
    ensures IsTreeCountLine(TreeLine(k, marker, tag, value)) == IsBannedCountLine(Labelled(tag, '\t', value))
    ensures IsTreeListLine(TreeLine(k, marker, tag, value)) == IsBannedListLine(Labelled(tag, '\t', value))
    ensures IpsFromLine(FieldText(TreeLine(k, marker, tag, value))) == IpsFromLine(Labelled(tag, '\t', value))
  {
    FieldTextOfTreeLine(k, marker, tag, value);
    ReadersIgnoreStrip(Labelled(tag, '\t', value));
  }

  /** The readers as written strip the line first, so a stripped line
      reads the same. */
  lemma {:induction false} ReadersIgnoreStrip(line: string)
    ensures IsBannedCountLine(Strip(line)) == IsBannedCountLine(line)
    ensures IsBannedCountLine(line) ==> CountFromLine(Strip(line)) == CountFromLine(line)
    ensures IsBannedListLine(Strip(line)) == IsBannedListLine(line)
    ensures IpsFromLine(Strip(line)) == IpsFromLine(line)
  {
    StripOfStripped(Strip(line));
  }

  /** On a line without a tree marker the corrected readers agree with the
      ones as written. */
  lemma {:induction false} TreeReadersAgreeOnBareLines(line: string)
    requires !StartsWith(Strip(line), TreeBranch) && !StartsWith(Strip(line), TreeLast)
    ensures IsTreeCountLine(line) <==> IsBannedCountLine(line)
    ensures IsTreeCountLine(line) ==> TreeCountFromLine(line) == CountFromLine(line)
    ensures IsTreeListLine(line) <==> IsBannedListLine(line)
    ensures IsTreeListLine(line) ==> IpsFromLine(FieldText(line)) == IpsFromLine(line)
  {
    ReadersIgnoreStrip(line);
  }
}
