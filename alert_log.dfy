/** Reading the firewall's alert log (`FirewallGUI.load_alerts`).

    The file holds either one JSON document (an object or an array of
    objects) or one JSON value per line. The whole stripped text is decoded
    first; only when that fails is every non-blank line decoded on its own,
    and lines that fail are skipped. A missing, unreadable or blank file
    gives no alerts, and nothing here raises. */
module AlertLog {
  import opened Wrappers
  import opened PyText
  import opened Json

  /** The log file as the reader finds it. `Unreadable` stands for every
      I/O or text-decoding error that `open`/`read` raise and the reader
      catches. */
  datatype LogFile = Missing | Unreadable | Text(content: string)

  /** `json.loads`: the decoded value, or `None` where it raises
      `JSONDecodeError`. */
  type Decoder = string -> Option<JValue>

  /** What one successfully decoded document contributes: an object is
      wrapped in a list, an array is used as it is, any other value gives
      nothing. */
  function WholeDocument(v: JValue): seq<JValue> {
    match v
    case JObj(_) => [v]
    case JArr(items) => items
    case _ => []
  }

  /** The line-by-line fallback over the lines read so far: each line is
      stripped, blank lines are skipped, and a line that does not decode is
      skipped. */
  function LineRecords(lines: seq<string>, decode: Decoder): seq<JValue> {
    if lines == [] then []
    else
      var before := LineRecords(lines[..|lines| - 1], decode);
      var line := Strip(lines[|lines| - 1]);
      if line == "" then before
      else match decode(line)
        case Some(v) => before + [v]
        case None => before
  }

  /** The alerts read from `file`. */
  function Alerts(file: LogFile, decode: Decoder): seq<JValue> {
    match file
    case Missing => []
    case Unreadable => []
    case Text(content) =>
      var data := Strip(content);
      if data == "" then []
      else match decode(data)
        case Some(v) => WholeDocument(v)
        case None => LineRecords(SplitLines(data), decode)
  }

  /** The line loop of `load_alerts`. */
  method DecodeLines(lines: seq<string>, decode: Decoder) returns (records: seq<JValue>)
    ensures records == LineRecords(lines, decode)
  {
    records := [];
    for i := 0 to |lines|
      invariant records == LineRecords(lines[..i], decode)
    {
      LineRecordsStep(lines, i, decode);
      var line := Strip(lines[i]);
      if line == "" {
        continue;
      }
      var parsed := decode(line);
      if parsed.None? {
        continue;
      }
      records := records + [parsed.value];
    }
    assert lines[..|lines|] == lines;
  }

  /** Reading one more line adds its record exactly when it decodes. */
  lemma LineRecordsStep(lines: seq<string>, i: nat, decode: Decoder)
    requires i < |lines|
    ensures LineRecords(lines[..i + 1], decode) ==
      LineRecords(lines[..i], decode) + if Decodes(lines[i], decode) then [decode(Strip(lines[i])).value] else []
  {
    var prefix := lines[..i + 1];
    assert prefix[..i] == lines[..i] && prefix[i] == lines[i];
  }

  /** `load_alerts`. */
  method LoadAlerts(file: LogFile, decode: Decoder) returns (alerts: seq<JValue>)
    ensures alerts == Alerts(file, decode)
    ensures file.Missing? || file.Unreadable? ==> alerts == []
    ensures file.Text? && Strip(file.content) == "" ==> alerts == []
    ensures file.Text? && Strip(file.content) != "" && decode(Strip(file.content)).Some? ==>
      var v := decode(Strip(file.content)).value;
      && (v.JObj? ==> alerts == [v])
      && (v.JArr? ==> alerts == v.items)
      && (!v.JObj? && !v.JArr? ==> alerts == [])
    ensures file.Text? && Strip(file.content) != "" && decode(Strip(file.content)).None? ==>
      |alerts| <= |SplitLines(Strip(file.content))|
  {
    if file.Missing? || file.Unreadable? {
      return [];
    }
    var data := Strip(file.content);
    if data == "" {
      return [];
    }
    var whole := decode(data);
    if whole.Some? {
      alerts := WholeDocument(whole.value);
    } else {
      alerts := DecodeLines(SplitLines(data), decode);
      LineRecordsLength(SplitLines(data), decode);
    }
  }

  /** A line contributes a record exactly when it is non-blank and decodes. */
  predicate Decodes(line: string, decode: Decoder) {
    Strip(line) != "" && decode(Strip(line)).Some?
  }

  /** The fallback yields at most one record per line. */
  lemma {:induction false} LineRecordsLength(lines: seq<string>, decode: Decoder)
    ensures |LineRecords(lines, decode)| <= |lines|
  {
    if lines != [] {
      LineRecordsLength(lines[..|lines| - 1], decode);
    }
  }

  /** Lines are decoded independently: the fallback over two stretches of
      the file is the fallback over each, in file order. */
  lemma {:induction false} LineRecordsAppend(a: seq<string>, b: seq<string>, decode: Decoder)
    ensures LineRecords(a + b, decode) == LineRecords(a, decode) + LineRecords(b, decode)
    decreases |b|
  {
    if b == [] {
      assert a + b == a;
    } else {
      var b' := b[..|b| - 1];
      assert (a + b)[..|a + b| - 1] == a + b';
      assert (a + b)[|a + b| - 1] == b[|b| - 1];
      LineRecordsAppend(a, b', decode);
    }
  }

  /** A broken line among others costs only itself. */
  lemma BrokenLineSkipped(a: seq<string>, bad: string, b: seq<string>, decode: Decoder)
    requires !Decodes(bad, decode)
    ensures LineRecords(a + [bad] + b, decode) == LineRecords(a, decode) + LineRecords(b, decode)
  {
    LineRecordsAppend(a + [bad], b, decode);
    LineRecordsAppend(a, [bad], decode);
    assert [bad][..0] == [];
  }

  /** When every line decodes, the records are the decoded lines, one for
      one and in file order. */
  lemma {:induction false} AllLinesDecode(lines: seq<string>, decode: Decoder)
    requires forall i :: 0 <= i < |lines| ==> Decodes(lines[i], decode)
    ensures |LineRecords(lines, decode)| == |lines|
    ensures forall i :: 0 <= i < |lines| ==> Some(LineRecords(lines, decode)[i]) == decode(Strip(lines[i]))
  {
    if lines != [] {
      var init := lines[..|lines| - 1];
      forall i | 0 <= i < |init| ensures Decodes(init[i], decode) {
        assert init[i] == lines[i];
      }
      AllLinesDecode(init, decode);
      DecodedLineAppended(lines, decode);
    }
  }

  /** The step of `AllLinesDecode`: a decoding last line extends the
      one-for-one records of the lines before it. */
  lemma DecodedLineAppended(lines: seq<string>, decode: Decoder)
    requires lines != [] && Decodes(lines[|lines| - 1], decode)
    requires var init := lines[..|lines| - 1];
      && |LineRecords(init, decode)| == |init|
      && forall i :: 0 <= i < |init| ==> Some(LineRecords(init, decode)[i]) == decode(Strip(init[i]))
    ensures |LineRecords(lines, decode)| == |lines|
    ensures forall i :: 0 <= i < |lines| ==> Some(LineRecords(lines, decode)[i]) == decode(Strip(lines[i]))
  {
    var init := lines[..|lines| - 1];
    var v := decode(Strip(lines[|lines| - 1])).value;
    LineRecordsStep(lines, |lines| - 1, decode);
    assert lines[..|lines|] == lines;
    var records, before := LineRecords(lines, decode), LineRecords(init, decode);
    assert records == before + [v];
    forall i | 0 <= i < |lines| ensures Some(records[i]) == decode(Strip(lines[i])) {
      if i < |init| {
        assert records[i] == before[i] && lines[i] == init[i];
      }
    }
  }

  /** Every record the fallback returns is the decoding of some line of the
      file. */
  lemma {:induction false} RecordsComeFromLines(lines: seq<string>, decode: Decoder)
    ensures forall r :: r in LineRecords(lines, decode) ==>
      exists i :: 0 <= i < |lines| && decode(Strip(lines[i])) == Some(r)
  {
    if lines != [] {
      var init := lines[..|lines| - 1];
      RecordsComeFromLines(init, decode);
      forall r | r in LineRecords(lines, decode)
        ensures exists i :: 0 <= i < |lines| && decode(Strip(lines[i])) == Some(r)
      {
        if r in LineRecords(init, decode) {
          var i :| 0 <= i < |init| && decode(Strip(init[i])) == Some(r);
          assert lines[i] == init[i];
        } else {
          assert decode(Strip(lines[|lines| - 1])) == Some(r);
        }
      }
    }
  }

  /** A file whose whole text does not decode, holding valid lines around
      one broken line, gives exactly the records of the valid lines: the
      decoded lines before it, then the decoded lines after it. */
  lemma {:induction false} OneBrokenLineAmongValid(content: string, a: seq<string>, bad: string, b: seq<string>, decode: Decoder)
    requires Strip(content) != "" && decode(Strip(content)).None?
    requires SplitLines(Strip(content)) == a + [bad] + b
    requires !Decodes(bad, decode)
    requires forall i :: 0 <= i < |a| ==> Decodes(a[i], decode)
    requires forall i :: 0 <= i < |b| ==> Decodes(b[i], decode)
    ensures Alerts(Text(content), decode) == LineRecords(a, decode) + LineRecords(b, decode)
    ensures |Alerts(Text(content), decode)| == |a| + |b|
    ensures forall i :: 0 <= i < |a| ==> Some(Alerts(Text(content), decode)[i]) == decode(Strip(a[i]))
    ensures forall j :: 0 <= j < |b| ==> Some(Alerts(Text(content), decode)[|a| + j]) == decode(Strip(b[j]))
  {
    BrokenLineSkipped(a, bad, b, decode);
    FallbackReadsLines(content, decode);
    TwoDecodedRuns(a, b, decode);
  }

  /** A non-blank file whose whole text does not decode is read line by
      line. */
  lemma FallbackReadsLines(content: string, decode: Decoder)
    requires Strip(content) != "" && decode(Strip(content)).None?
    ensures Alerts(Text(content), decode) == LineRecords(SplitLines(Strip(content)), decode)
  {
  }

  /** The records of two runs of decoding lines, one after the other. */
  lemma {:induction false} TwoDecodedRuns(a: seq<string>, b: seq<string>, decode: Decoder)
    requires forall i :: 0 <= i < |a| ==> Decodes(a[i], decode)
    requires forall i :: 0 <= i < |b| ==> Decodes(b[i], decode)
    ensures |LineRecords(a, decode) + LineRecords(b, decode)| == |a| + |b|
    ensures forall i :: 0 <= i < |a| ==> Some((LineRecords(a, decode) + LineRecords(b, decode))[i]) == decode(Strip(a[i]))
    ensures forall j :: 0 <= j < |b| ==> Some((LineRecords(a, decode) + LineRecords(b, decode))[|a| + j]) == decode(Strip(b[j]))
  {
    AllLinesDecode(a, decode);
    AllLinesDecode(b, decode);
    var ra, rb := LineRecords(a, decode), LineRecords(b, decode);
    forall j | 0 <= j < |b| ensures Some((ra + rb)[|a| + j]) == decode(Strip(b[j])) {
      assert (ra + rb)[|a| + j] == rb[j];
    }
  }
}
