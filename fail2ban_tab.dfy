/** The Fail2Ban tab (`Fail2BanTab`): a table of jails and a table of the
    addresses banned in the selected jail, both filled from
    `fail2ban-client` output, and the two unban actions.

    `fail2ban-client` is a `Client`, one per phase of an action: the
    output it prints before the unban requests go out and the output the
    refresh that follows them reads. The unban requests are recorded in the
    order they are sent, with whatever each of them comes to. */
module Fail2BanTab {
  import opened Wrappers
  import opened PyText
  import opened Fail2BanStatus

  /** One row of the jail table as shown: name, status, filter and the
      banned count as text. */
  datatype JailRow = JailRow(jail: string, status: string, filter: string, banned: string)

  /** One row of the banned table. The status output has no per-address
      time or count, so both columns hold `-`. */
  datatype BannedRow = BannedRow(ip: string, time: string, count: string)

  /** `fail2ban-client set <jail> unbanip <ip>`. */
  datatype UnbanRequest = UnbanRequest(jail: string, ip: string)

  /** What one unban attempt came to. The tab ignores it: an exception is
      swallowed and the next address is tried. */
  datatype Outcome = Completed | Raised

  /** The status output `refresh` and the unban actions read for `jail`. */
  function JailStatus(jail: string, client: Client): seq<string> {
    SplitLines(RunFb(client(["status", jail])))
  }

  /** The row `refresh` inserts for `jail` (line 145). */
  function JailRowOf(jail: string, client: Client): JailRow {
    JailRow(jail, "OK", "", ShowInt(BannedCountOf(JailStatus(jail, client))))
  }

  /** The row `refresh` inserts for each jail, given the client. */
  function JailRowFor(client: Client): string -> JailRow {
    (jail: string) => JailRowOf(jail, client)
  }

  /** The rows `refresh` inserts, one per jail. */
  function JailRowsOf(jails: seq<string>, client: Client): seq<JailRow> {
    MapAll(jails, JailRowFor(client))
  }

  /** The jails `fail2ban-client status` names. */
  function ListedJails(client: Client): seq<string> {
    JailListOf(SplitLines(RunFb(client(["status"]))))
  }

  /** The jail table after `refresh`. */
  function RefreshedRows(client: Client): seq<JailRow> {
    JailRowsOf(ListedJails(client), client)
  }

  /** The row `load_banned_for_jail` inserts for an address (line 173). */
  function BannedRowOf(ip: string): BannedRow {
    BannedRow(ip, "-", "-")
  }

  /** The rows `load_banned_for_jail` inserts, one per address. */
  function BannedRowsOf(ips: seq<string>): seq<BannedRow> {
    MapAll(ips, BannedRowOf)
  }

  /** The request an unban loop sends for each address of `jail`. */
  function RequestFor(jail: string): string -> UnbanRequest {
    (ip: string) => UnbanRequest(jail, ip)
  }

  /** The requests the unban loops send, one per address. */
  function Requests(jail: string, ips: seq<string>): seq<UnbanRequest> {
    MapAll(ips, RequestFor(jail))
  }

  /** The address column of the selected rows of the banned table (line 181). */
  function SelectedIps(rows: seq<BannedRow>, sel: seq<nat>): (ips: seq<string>)
    requires forall k :: 0 <= k < |sel| ==> sel[k] < |rows|
    ensures |ips| == |sel|
    ensures forall k :: 0 <= k < |sel| ==> ips[k] == rows[sel[k]].ip
  {
    if sel == [] then []
    else SelectedIps(rows, sel[..|sel| - 1]) + [rows[sel[|sel| - 1]].ip]
  }

  /** Row `k` of the jail table is the row for jail `k` of the list. */
  lemma JailRowsFollowJails(jails: seq<string>, client: Client)
    ensures |JailRowsOf(jails, client)| == |jails|
    ensures forall k :: 0 <= k < |jails| ==> JailRowsOf(jails, client)[k] == JailRowOf(jails[k], client)
  {
    MapAllAt(jails, JailRowFor(client));
  }

  /** The row for a jail names it, reports `OK` with an empty filter, and
      shows a count that reads back as the count parsed from the jail's
      status. */
  lemma JailRowColumns(jail: string, client: Client)
    ensures JailRowOf(jail, client).jail == jail
    ensures JailRowOf(jail, client).status == "OK" && JailRowOf(jail, client).filter == ""
    ensures ParseInt(JailRowOf(jail, client).banned) == Some(BannedCountOf(JailStatus(jail, client)))
  {
    ParseShowInt(BannedCountOf(JailStatus(jail, client)));
  }

  /** Row `k` of the banned table shows address `k` with `-` for time and
      count. */
  lemma BannedRowsFollowIps(ips: seq<string>)
    ensures |BannedRowsOf(ips)| == |ips|
    ensures forall k :: 0 <= k < |ips| ==> BannedRowsOf(ips)[k] == BannedRow(ips[k], "-", "-")
  {
    MapAllAt(ips, BannedRowOf);
  }

  /** Request `k` unbans address `k` from `jail`: one request per
      address, in list order. */
  lemma RequestsFollowIps(jail: string, ips: seq<string>)
    ensures |Requests(jail, ips)| == |ips|
    ensures forall k :: 0 <= k < |ips| ==> Requests(jail, ips)[k] == UnbanRequest(jail, ips[k])
  {
    MapAllAt(ips, RequestFor(jail));
  }

  /** Each address is unbanned on its own: the requests for two stretches
      of the list are those for each, one after the other. */
  lemma RequestsAppend(jail: string, a: seq<string>, b: seq<string>)
    ensures Requests(jail, a + b) == Requests(jail, a) + Requests(jail, b)
  {
    MapAllAppend(a, b, RequestFor(jail));
  }

  /** When `fail2ban-client status` lists `names` on its jail-list line,
      separated by a comma and a space as fail2ban prints them, and each jail's status is a bare `Currently banned:` line with its
      count, nothing before the label, the refreshed table shows exactly
      those jails, in that order, with those counts. (With the count drawn
      behind a tree marker the table shows 0: `TreeCountLineMissed`.) */
  lemma RefreshShowsPrintedJails(client: Client, names: seq<string>, counts: seq<int>)
    requires |counts| == |names|
    requires forall j :: 0 <= j < |names| ==>
      names[j] != "" && IsStripped(names[j]) && ',' !in names[j] && NoLineBreak(names[j])
    requires client(["status"]) == Succeeded(Labelled(JailListLabel, '\t', CommaSpaced(names)))
    requires forall j :: 0 <= j < |names| ==>
      client(["status", names[j]]) == Succeeded(Labelled(BannedCountLabel, '\t', ShowInt(counts[j])))
    ensures |RefreshedRows(client)| == |names|
    ensures forall j :: 0 <= j < |names| ==>
      RefreshedRows(client)[j] == JailRow(names[j], "OK", "", ShowInt(counts[j]))
  {
    PrintedJailsReadBack(client, names);
    JailRowsFollowJails(names, client);
    forall j | 0 <= j < |names| ensures BannedCountOf(JailStatus(names[j], client)) == counts[j] {
      PrintedCountReadBack(client, names[j], counts[j]);
    }
  }

  /** A jail whose status prints its count shows that count. */
  lemma PrintedCountReadBack(client: Client, jail: string, count: int)
    requires client(["status", jail]) == Succeeded(Labelled(BannedCountLabel, '\t', ShowInt(count)))
    ensures BannedCountOf(JailStatus(jail, client)) == count
  {
    var line := Labelled(BannedCountLabel, '\t', ShowInt(count));
    BannedCountLabelShape();
    ShowIntWithoutBreaks(count);
    LabelledOneLine(BannedCountLabel, '\t', ShowInt(count));
    BannedCountRoundTrip(count);
    LastIndexAt([line], IsBannedCountLine, 0);
  }

  /** When `fail2ban-client status` prints the jail-list line for `names`,
      the listed jails are `names`. */
  lemma PrintedJailsReadBack(client: Client, names: seq<string>)
    requires forall j :: 0 <= j < |names| ==>
      names[j] != "" && IsStripped(names[j]) && ',' !in names[j] && NoLineBreak(names[j])
    requires client(["status"]) == Succeeded(Labelled(JailListLabel, '\t', CommaSpaced(names)))
    ensures ListedJails(client) == names
  {
    assert RunFb(client(["status"])) == Labelled(JailListLabel, '\t', CommaSpaced(names));
    JailListOfLine(names);
  }

  /** The jail list read from the jail-list line for `names` is `names`. */
  lemma JailListOfLine(names: seq<string>)
    requires forall j :: 0 <= j < |names| ==>
      names[j] != "" && IsStripped(names[j]) && ',' !in names[j] && NoLineBreak(names[j])
    ensures JailListOf(SplitLines(Labelled(JailListLabel, '\t', CommaSpaced(names)))) == names
  {
    var line := Labelled(JailListLabel, '\t', CommaSpaced(names));
    JailListOneLine(names);
    FirstIndexAt([line], HasJailMarker, 0);
    assert JailListOf([line]) == JailsFromLine(line);
    JailListRoundTrip(names);
  }

  /** A jail-list line naming jails without line breaks is one line of
      output, and it names the marker. */
  lemma JailListOneLine(names: seq<string>)
    requires forall j :: 0 <= j < |names| ==> NoLineBreak(names[j])
    ensures SplitLines(Labelled(JailListLabel, '\t', CommaSpaced(names))) == [Labelled(JailListLabel, '\t', CommaSpaced(names))]
    ensures HasJailMarker(Labelled(JailListLabel, '\t', CommaSpaced(names)))
  {
    SpaceLedWithoutBreaks(names);
    JoinWithoutBreaks(SpaceLed(names), ',');
    CommaSpacedParts(names);
    JailListLabelShape();
    LabelledOneLine(JailListLabel, '\t', CommaSpaced(names));
    JailLabelHasMarker('\t', CommaSpaced(names));
  }

  /** Putting a space before a name brings in no line break. */
  lemma SpaceLedWithoutBreaks(names: seq<string>)
    requires forall j :: 0 <= j < |names| ==> NoLineBreak(names[j])
    ensures forall j :: 0 <= j < |names| ==> NoLineBreak(SpaceLed(names)[j])
  {
    forall j, i | 1 <= j < |names| && 1 <= i < |SpaceLed(names)[j]|
      ensures !IsLineBreak(SpaceLed(names)[j][i])
    {
      assert SpaceLed(names)[j][i] == names[j][i - 1];
    }
  }

  /** A joined list of parts without line breaks has none either. */
  lemma {:induction false} JoinWithoutBreaks(parts: seq<string>, sep: char)
    requires !IsLineBreak(sep)
    requires forall j :: 0 <= j < |parts| ==> NoLineBreak(parts[j])
    ensures NoLineBreak(Join(parts, sep))
  {
    if |parts| > 1 {
      JoinWithoutBreaks(parts[1..], sep);
      var rest := Join(parts[1..], sep);
      var s := parts[0] + [sep] + rest;
      assert Join(parts, sep) == s;
      forall i | 0 <= i < |s| ensures !IsLineBreak(s[i]) {
        if i < |parts[0]| {
          assert s[i] == parts[0][i];
        } else if i > |parts[0]| {
          assert s[i] == rest[i - |parts[0]| - 1];
        }
      }
    }
  }

  /** A number as `str` prints it holds no line break. */
  lemma ShowIntWithoutBreaks(n: int)
    ensures NoLineBreak(ShowInt(n))
  {
    ShowNatDigits(if n < 0 then -n else n);
    var s := ShowInt(n);
    forall i | 0 <= i < |s| ensures !IsLineBreak(s[i]) {
      if n < 0 {
        assert s == "-" + ShowNat(-n);
        if i > 0 {
          assert s[i] == ShowNat(-n)[i - 1];
        }
      }
    }
  }

  /** With `fail2ban-client` missing, `refresh` shows no jails. */
  lemma MissingClientShowsNoJails(client: Client)
    requires client(["status"]).NotFound?
    ensures RefreshedRows(client) == []
  {
    NoOutputGivesDefaults(client(["status"]));
  }

  /** The tab's state: the rows of both tables and the selected row
      indices of each (tkinter's `selection()`). */
  class Tab {
    var jailRows: seq<JailRow>
    var bannedRows: seq<BannedRow>
    var jailSelection: seq<nat>
    var bannedSelection: seq<nat>

    /** Only existing rows can be selected. */
    predicate Valid()
      reads this
    {
      && (forall k :: 0 <= k < |jailSelection| ==> jailSelection[k] < |jailRows|)
      && (forall k :: 0 <= k < |bannedSelection| ==> bannedSelection[k] < |bannedRows|)
    }

    /** The tab loads itself once on construction (line 71). */
    constructor (client: Client)
      ensures Valid()
      ensures jailRows == RefreshedRows(client) && jailSelection == []
      ensures bannedRows == [] && bannedSelection == []
    {
      jailRows := [];
      bannedRows := [];
      jailSelection := [];
      bannedSelection := [];
      new;
      Refresh(client);
    }

    /** `refresh` (lines 108-145): both tables are emptied, which also
        clears their selections, and one row is inserted per listed jail. */
    method Refresh(client: Client)
      modifies this
      ensures Valid()
      ensures jailRows == RefreshedRows(client) && jailSelection == []
      ensures bannedRows == [] && bannedSelection == []
    {
      var rows := ListJails(client);
      jailRows, jailSelection, bannedRows, bannedSelection := rows, [], [], [];
    }

    /** `load_banned_for_jail` (lines 154-173): the banned table is
        emptied and one row is inserted per address the jail's status
        lists. */
    method LoadBannedForJail(jail: string, client: Client)
      requires Valid()
      modifies this
      ensures Valid()
      ensures bannedRows == BannedRowsOf(BannedIpsOf(JailStatus(jail, client))) && bannedSelection == []
      ensures jailRows == old(jailRows) && jailSelection == old(jailSelection)
    {
      bannedRows := [];
      bannedSelection := [];
      bannedRows := ListBanned(jail, client);
    }

    /** The user selects rows of the jail table (`on_jail_selected`,
        lines 147-152): the banned table is loaded for the first selected
        jail; an empty selection changes nothing else. */
    method SelectJails(sel: seq<nat>, client: Client)
      requires Valid()
      requires forall k :: 0 <= k < |sel| ==> sel[k] < |jailRows|
      modifies this
      ensures Valid()
      ensures jailRows == old(jailRows) && jailSelection == sel
      ensures sel == [] ==> bannedRows == old(bannedRows) && bannedSelection == old(bannedSelection)
      ensures sel != [] ==>
        && bannedRows == BannedRowsOf(BannedIpsOf(JailStatus(jailRows[sel[0]].jail, client)))
        && bannedSelection == []
    {
      jailSelection := sel;
      if sel != [] {
        LoadBannedForJail(jailRows[sel[0]].jail, client);
      }
    }

    /** The user selects rows of the banned table. */
    method SelectBanned(sel: seq<nat>)
      requires Valid()
      requires forall k :: 0 <= k < |sel| ==> sel[k] < |bannedRows|
      modifies this
      ensures Valid()
      ensures bannedSelection == sel
      ensures jailRows == old(jailRows) && bannedRows == old(bannedRows) && jailSelection == old(jailSelection)
    {
      bannedSelection := sel;
    }

    /** `unban_selected` (lines 176-198): nothing is sent and nothing
        changes without a selected address, without a selected jail, or
        when the user declines; otherwise one request goes out per selected
        address, whatever each comes to, and the tab is refreshed. */
    method UnbanSelected(confirmed: bool, attempt: UnbanRequest -> Outcome, after: Client)
      returns (sent: seq<UnbanRequest>)
      requires Valid()
      modifies this
      ensures Valid()
      ensures old(bannedSelection) == [] || old(jailSelection) == [] || !confirmed ==>
        sent == [] && unchanged(this)
      ensures old(bannedSelection) != [] && old(jailSelection) != [] && confirmed ==>
        && sent == Requests(old(jailRows[jailSelection[0]].jail), old(SelectedIps(bannedRows, bannedSelection)))
        && jailRows == RefreshedRows(after) && jailSelection == []
        && bannedRows == [] && bannedSelection == []
    {
      sent := [];
      if bannedSelection == [] {
        return;
      }
      var ips := SelectedIps(bannedRows, bannedSelection);
      if jailSelection == [] {
        return;
      }
      var jail := jailRows[jailSelection[0]].jail;
      if !confirmed {
        return;
      }
      sent := SendUnbans(jail, ips, attempt);
      Refresh(after);
    }

    /** `unban_all` (lines 200-224): nothing is sent and nothing changes
        without a selected jail or when the user declines; otherwise one
        request goes out per address the jail's status lists at that
        moment, whatever each comes to, and the tab is refreshed. */
    method UnbanAll(confirmed: bool, before: Client, attempt: UnbanRequest -> Outcome, after: Client)
      returns (sent: seq<UnbanRequest>)
      requires Valid()
      modifies this
      ensures Valid()
      ensures old(jailSelection) == [] || !confirmed ==> sent == [] && unchanged(this)
      ensures old(jailSelection) != [] && confirmed ==>
        && sent == Requests(old(jailRows[jailSelection[0]].jail),
                            BannedIpsOf(JailStatus(old(jailRows[jailSelection[0]].jail), before)))
        && jailRows == RefreshedRows(after) && jailSelection == []
        && bannedRows == [] && bannedSelection == []
    {
      sent := [];
      if jailSelection == [] {
        return;
      }
      var jail := jailRows[jailSelection[0]].jail;
      if !confirmed {
        return;
      }
      var ips := ParseBannedIps(RunFb(before(["status", jail])));
      sent := SendUnbans(jail, ips, attempt);
      Refresh(after);
    }
  }

  /** The request loop both unban actions share: each address is tried in
      turn, and an attempt that raises does not stop the ones after it. */
  method SendUnbans(jail: string, ips: seq<string>, attempt: UnbanRequest -> Outcome)
    returns (sent: seq<UnbanRequest>)
    ensures sent == Requests(jail, ips)
  {
    sent := [];
    for i := 0 to |ips|
      invariant sent == MapAll(ips[..i], RequestFor(jail))
    {
      var request := UnbanRequest(jail, ips[i]);
      var outcome := attempt(request);
      assert ips[..i + 1][..i] == ips[..i];
      sent := sent + [request];
    }
    assert ips[..|ips|] == ips;
  }

  /** What `refresh` reads and inserts (lines 115-145). */
  method ListJails(client: Client) returns (rows: seq<JailRow>)
    ensures rows == RefreshedRows(client)
  {
    var jails := ParseJailList(RunFb(client(["status"])));
    rows := JailRowsFor(jails, client);
  }

  /** What `load_banned_for_jail` reads and inserts (lines 159-173). */
  method ListBanned(jail: string, client: Client) returns (rows: seq<BannedRow>)
    ensures rows == BannedRowsOf(BannedIpsOf(JailStatus(jail, client)))
  {
    var ips := ParseBannedIps(RunFb(client(["status", jail])));
    rows := BannedRowsFor(ips);
  }

  /** The insertion loop of `refresh` (lines 129-145): one row per jail,
      in list order, each with the count parsed from that jail's status. */
  method JailRowsFor(jails: seq<string>, client: Client) returns (rows: seq<JailRow>)
    ensures rows == JailRowsOf(jails, client)
  {
    rows := [];
    for i := 0 to |jails|
      invariant rows == MapAll(jails[..i], JailRowFor(client))
    {
      var info := RunFb(client(["status", jails[i]]));
      var count := ParseBannedCount(info);
      assert jails[..i + 1][..i] == jails[..i];
      rows := rows + [JailRow(jails[i], "OK", "", ShowInt(count))];
    }
    assert jails[..|jails|] == jails;
  }

  /** The insertion loop of `load_banned_for_jail` (lines 172-173). */
  method BannedRowsFor(ips: seq<string>) returns (rows: seq<BannedRow>)
    ensures rows == BannedRowsOf(ips)
  {
    rows := [];
    for i := 0 to |ips|
      invariant rows == MapAll(ips[..i], BannedRowOf)
    {
      assert ips[..i + 1][..i] == ips[..i];
      rows := rows + [BannedRow(ips[i], "-", "-")];
    }
    assert ips[..|ips|] == ips;
  }
}
