/** The dashboard figures computed from the alert log
    (`FirewallGUI.update_dashboard_from_logs`): the number of distinct
    blocked addresses, the number of alerts of the current UTC day, whether
    automatic blocking is on, and the 50 most recent alerts as text lines.

    Each alert is a decoded JSON value, expected to be an object with the
    fields `timestamp`, `ip`/`src_ip`/`source`, `action` and `reason`. */
module Dashboard {
  import opened Wrappers
  import opened PyText
  import opened Json
  import opened StableSort
  import AlertLog

  /** The library conversions the dashboard relies on and the model takes
      as given. */
  datatype Conversions = Conversions(
    /** `float(s)` on a string; `None` where it raises. */
    parseFloat: string -> Option<real>,
    /** `datetime.fromtimestamp(x, tz=timezone.utc)` accepts `x` (it raises
        outside the platform's range). */
    epochInRange: real -> bool,
    /** `datetime.fromisoformat(s)`; `None` where it raises. */
    parseIso: string -> Option<Instant>,
    /** `str(v)` for a value that is not a string. */
    show: JValue -> string,
    /** `.astimezone().strftime('%Y-%m-%d %H:%M:%S')` of an instant. */
    formatLocal: real -> string)

  /** A `datetime` as seconds since the epoch; `aware` tells whether it
      carries a time zone (`fromisoformat` gives a naive one when the text
      has no offset). */
  datatype Instant = Instant(seconds: real, aware: bool)

  /** `str(v)` / `f"{v}"`: a string is shown as itself, `None` and the
      booleans by their Python names. */
  function Display(v: JValue, conv: Conversions): string {
    match v
    case JStr(s) => s
    case JNull => "None"
    case JBool(b) => if b then "True" else "False"
    case _ => conv.show(v)
  }

  /** The keys that may hold an alert's address, in the order they are tried. */
  const AddressKeys: seq<string> := ["ip", "src_ip", "source"]

  /** The alert's address: the first truthy one of its `ip`, `src_ip` and
      `source` fields, else the value of `source`. */
  function Address(entry: JValue): JValue {
    var ip := FieldValue(entry, "ip");
    if Truthy(ip) then ip
    else
      var srcIp := FieldValue(entry, "src_ip");
      if Truthy(srcIp) then srcIp else FieldValue(entry, "source")
  }

  /** The address is the value of the first of `ip`, `src_ip`, `source`
      that is truthy; a falsy value such as `""` falls through to the next
      key. When none is truthy the address is falsy. */
  lemma AddressIsFirstTruthy(entry: JValue)
    ensures Truthy(Address(entry)) <==>
      exists i :: 0 <= i < |AddressKeys| && Truthy(FieldValue(entry, AddressKeys[i]))
    ensures forall i ::
      (&& 0 <= i < |AddressKeys|
       && Truthy(FieldValue(entry, AddressKeys[i]))
       && (forall j :: 0 <= j < i ==> !Truthy(FieldValue(entry, AddressKeys[j]))))
      ==> Address(entry) == FieldValue(entry, AddressKeys[i])
  {
    assert AddressKeys[0] == "ip" && AddressKeys[1] == "src_ip" && AddressKeys[2] == "source";
  }

  /** The action as read at main_gui.py:449: the upper-cased `action` when
      it is truthy, `""` when it is missing or falsy, and `None` where a
      truthy non-string has no `.upper()` and Python raises. */
  function ActionText(entry: JValue): Option<string> {
    var a := FieldValue(entry, "action");
    if !Truthy(a) then Some("")
    else if a.JStr? then Some(Upper(a.s))
    else None
  }

  predicate IsBlocked(entry: JValue) {
    ActionText(entry) == Some("BLOCKED")
  }

  /** A BLOCKED alert that names an address: one that goes into the set. */
  predicate BlocksAddress(entry: JValue) {
    IsBlocked(entry) && Truthy(Address(entry))
  }

  /** The element the Python set stores for an address: `True` and `1`
      hash and compare equal, and so do `False` and `0`. */
  function AddressKey(v: JValue): JValue {
    if v.JBool? then JNum(if v.b then 1.0 else 0.0) else v
  }

  /** Lines 447-475 get through `entry` without raising: it is an object,
      its action can be upper-cased, a blocked address it names is
      hashable, and a time it carries can be compared with the aware
      midnight. */
  predicate EntryScans(entry: JValue, conv: Conversions) {
    && entry.JObj?
    && ActionText(entry).Some?
    && !(BlocksAddress(entry) && (Address(entry).JArr? || Address(entry).JObj?))
    && (EntryInstant(entry, conv).None? || EntryInstant(entry, conv).value.aware)
  }

  predicate AllScan(alerts: seq<JValue>, conv: Conversions) {
    forall i :: 0 <= i < |alerts| ==> EntryScans(alerts[i], conv)
  }

  /** `float(v)`: `None` where Python raises. */
  function FloatOf(v: JValue, conv: Conversions): Option<real> {
    match v
    case JNull => None
    case JBool(b) => Some(if b then 1.0 else 0.0)
    case JNum(n) => Some(n)
    case JStr(s) => conv.parseFloat(s)
    case _ => None
  }

  /** `entry_dt` (lines 452-461): a truthy timestamp read as epoch seconds,
      else as an ISO date-time, else absent. */
  function EntryInstant(entry: JValue, conv: Conversions): Option<Instant> {
    var ts := FieldValue(entry, "timestamp");
    if !Truthy(ts) then None
    else match FloatOf(ts, conv)
      case Some(x) => if conv.epochInRange(x) then Some(Instant(x, true)) else conv.parseIso(Display(ts, conv))
      case None => conv.parseIso(Display(ts, conv))
  }

  /** An alert is counted for today when its time is at or after
      `midnight`, or when it has no time at all. */
  predicate CountsToday(entry: JValue, conv: Conversions, midnight: real) {
    match EntryInstant(entry, conv)
    case None => true
    case Some(t) => t.seconds >= midnight
  }

  /** The UTC midnight that starts the day containing `now` (epoch seconds;
      POSIX days are 86400 seconds long). */
  function MidnightUtc(now: real): (m: real)
    ensures m <= now < m + 86400.0
    ensures m == m.Floor as real
    ensures m.Floor % 86400 == 0
  {
    var d := now.Floor;
    (d - d % 86400) as real
  }

  /** The set a loop builds by adding `key(x)` for every `x` of `s` that
      satisfies `p`. */
  function Collect<T, K>(s: seq<T>, p: T -> bool, key: T -> K): set<K> {
    if s == [] then {}
    else
      var last := s[|s| - 1];
      Collect(s[..|s| - 1], p, key) + (if p(last) then {key(last)} else {})
  }

  /** `k` is collected exactly when some element that satisfies `p` has
      key `k`. */
  lemma {:induction false} CollectMembers<T, K>(s: seq<T>, p: T -> bool, key: T -> K, k: K)
    ensures k in Collect(s, p, key) <==> exists i :: 0 <= i < |s| && p(s[i]) && key(s[i]) == k
  {
    if s != [] {
      var init := s[..|s| - 1];
      CollectMembers(init, p, key, k);
      if exists i :: 0 <= i < |init| && p(init[i]) && key(init[i]) == k {
        var i :| 0 <= i < |init| && p(init[i]) && key(init[i]) == k;
        assert s[i] == init[i];
      }
      if exists i :: 0 <= i < |s| && p(s[i]) && key(s[i]) == k {
        var i :| 0 <= i < |s| && p(s[i]) && key(s[i]) == k;
        if i < |init| {
          assert init[i] == s[i];
        }
      }
    }
  }

  /** What two elements contribute. */
  lemma CollectPair<T, K>(a: T, b: T, p: T -> bool, key: T -> K)
    ensures Collect([a, b], p, key) == (if p(a) then {key(a)} else {}) + (if p(b) then {key(b)} else {})
  {
    assert [a, b][..1] == [a] && [a][..0] == [];
    assert Collect([a], p, key) == Collect([], p, key) + (if p(a) then {key(a)} else {});
    assert Collect([a, b], p, key) == Collect([a], p, key) + (if p(b) then {key(b)} else {});
  }

  /** The element a BLOCKED alert adds to `blocked_ips`. */
  function BlockedKey(entry: JValue): JValue {
    AddressKey(Address(entry))
  }

  /** The set `blocked_ips` after the loop has seen `alerts`. */
  function BlockedAddresses(alerts: seq<JValue>): set<JValue> {
    Collect(alerts, BlocksAddress, BlockedKey)
  }

  /** `today_count` after the loop has seen `alerts`. */
  function TodayCount(alerts: seq<JValue>, conv: Conversions, midnight: real): nat {
    if alerts == [] then 0
    else
      var last := alerts[|alerts| - 1];
      TodayCount(alerts[..|alerts| - 1], conv, midnight) + (if CountsToday(last, conv, midnight) then 1 else 0)
  }

  /** The number of alerts that put an address into the set. */
  function BlockingAlerts(alerts: seq<JValue>): nat {
    if alerts == [] then 0
    else BlockingAlerts(alerts[..|alerts| - 1]) + (if BlocksAddress(alerts[|alerts| - 1]) then 1 else 0)
  }

  /** The number of alerts dated before `midnight`. */
  function EarlierAlerts(alerts: seq<JValue>, conv: Conversions, midnight: real): nat {
    if alerts == [] then 0
    else EarlierAlerts(alerts[..|alerts| - 1], conv, midnight) + (if CountsToday(alerts[|alerts| - 1], conv, midnight) then 0 else 1)
  }

  /** What the loop of lines 445-475 leaves behind. */
  datatype Scan = ScanRaised | Scanned(blocked: set<JValue>, today: nat)

  /** The loop of lines 445-475. The recent lines it also builds are thrown
      away at line 487 and are not modelled. */
  method ScanAlerts(alerts: seq<JValue>, conv: Conversions, midnight: real) returns (r: Scan)
    ensures r.ScanRaised? <==> !AllScan(alerts, conv)
    ensures r.Scanned? ==> r.blocked == BlockedAddresses(alerts)
    ensures r.Scanned? ==> r.today == TodayCount(alerts, conv, midnight)
  {
    var blocked: set<JValue> := {};
    var today: nat := 0;
    for i := 0 to |alerts|
      invariant forall j :: 0 <= j < i ==> EntryScans(alerts[j], conv)
      invariant blocked == BlockedAddresses(alerts[..i])
      invariant today == TodayCount(alerts[..i], conv, midnight)
    {
      assert alerts[..i + 1][..i] == alerts[..i];
      var entry := alerts[i];
      if !entry.JObj? {
        return ScanRaised;
      }
      var ip := Address(entry);
      var action := ActionText(entry);
      if action.None? {
        return ScanRaised;
      }
      var when := EntryInstant(entry, conv);
      if action.value == "BLOCKED" && Truthy(ip) {
        if ip.JArr? || ip.JObj? {
          return ScanRaised;
        }
        blocked := blocked + {AddressKey(ip)};
      }
      if when.None? {
        today := today + 1;
      } else if !when.value.aware {
        return ScanRaised;
      } else if when.value.seconds >= midnight {
        today := today + 1;
      }
    }
    assert alerts[..|alerts|] == alerts;
    return Scanned(blocked, today);
  }

  /** An address is in the set exactly when some BLOCKED alert names it;
      how often it is named does not matter. */
  lemma BlockedAddressesMembers(alerts: seq<JValue>, k: JValue)
    ensures k in BlockedAddresses(alerts) <==>
      exists i :: 0 <= i < |alerts| && BlocksAddress(alerts[i]) && AddressKey(Address(alerts[i])) == k
  {
    CollectMembers(alerts, BlocksAddress, BlockedKey, k);
  }

  /** There are never more distinct blocked addresses than alerts that
      block an address. */
  lemma {:induction false} BlockedCountBound(alerts: seq<JValue>)
    ensures |BlockedAddresses(alerts)| <= BlockingAlerts(alerts)
  {
    if alerts != [] {
      BlockedCountBound(alerts[..|alerts| - 1]);
    }
  }

  /** A second BLOCKED alert for an address already in the set adds nothing. */
  lemma RepeatedAddressCountsOnce(alerts: seq<JValue>, e: JValue)
    requires BlocksAddress(e)
    requires exists i :: 0 <= i < |alerts| && BlocksAddress(alerts[i]) && AddressKey(Address(alerts[i])) == AddressKey(Address(e))
    ensures BlockedAddresses(alerts + [e]) == BlockedAddresses(alerts)
  {
    BlockedAddressesMembers(alerts, AddressKey(Address(e)));
    assert (alerts + [e])[..|alerts|] == alerts;
  }

  /** Two BLOCKED alerts for the same address count as one. */
  lemma SameAddressTwice(e1: JValue, e2: JValue)
    requires BlocksAddress(e1) && BlocksAddress(e2) && Address(e1) == Address(e2)
    ensures |BlockedAddresses([e1, e2])| == 1
  {
    CollectPair(e1, e2, BlocksAddress, BlockedKey);
  }

  /** Every alert is either counted for today or dated before midnight. */
  lemma {:induction false} TodayPartition(alerts: seq<JValue>, conv: Conversions, midnight: real)
    ensures TodayCount(alerts, conv, midnight) + EarlierAlerts(alerts, conv, midnight) == |alerts|
  {
    if alerts != [] {
      TodayPartition(alerts[..|alerts| - 1], conv, midnight);
    }
  }

  /** Hence the day's count never exceeds the number of alerts, and equals
      it when no alert is dated before midnight (for instance when no alert
      has a readable time). */
  lemma TodayCountBound(alerts: seq<JValue>, conv: Conversions, midnight: real)
    ensures TodayCount(alerts, conv, midnight) <= |alerts|
    ensures EarlierAlerts(alerts, conv, midnight) == 0 ==> TodayCount(alerts, conv, midnight) == |alerts|
  {
    TodayPartition(alerts, conv, midnight);
  }

  /** When no alert has a readable time, none is dated before midnight and
      every one counts for today (line 472). */
  lemma {:induction false} UndatedAlertsAllCount(alerts: seq<JValue>, conv: Conversions, midnight: real)
    requires forall i :: 0 <= i < |alerts| ==> EntryInstant(alerts[i], conv).None?
    ensures EarlierAlerts(alerts, conv, midnight) == 0
    ensures TodayCount(alerts, conv, midnight) == |alerts|
  {
    if alerts != [] {
      UndatedAlertsAllCount(alerts[..|alerts| - 1], conv, midnight);
    }
    TodayPartition(alerts, conv, midnight);
  }

  /** `_get_ts` (lines 479-484): the timestamp as a float, with a missing
      or falsy timestamp read as 0, and 0 wherever the conversion raises. */
  function TimestampKey(conv: Conversions, e: JValue): real {
    var ts := FieldValue(e, "timestamp");
    if Truthy(ts) then FloatOf(ts, conv).GetOr(0.0) else 0.0
  }

  /** `_get_ts` as a sort key. */
  function KeyOf(conv: Conversions): JValue -> real {
    e => TimestampKey(conv, e)
  }

  /** An alert without a timestamp, or whose timestamp `float` rejects,
      sorts as epoch 0. */
  lemma MissingTimestampSortsAsZero(conv: Conversions, e: JValue)
    requires !Truthy(FieldValue(e, "timestamp")) || FloatOf(FieldValue(e, "timestamp"), conv).None?
    ensures KeyOf(conv)(e) == 0.0
  {
  }

  const RecentLimit: nat := 50

  function Min(a: nat, b: nat): nat {
    if a < b then a else b
  }

  /** `sorted(alerts, key=_get_ts, reverse=True)[:50]`. */
  function RecentEntries(alerts: seq<JValue>, conv: Conversions): (r: seq<JValue>)
    ensures |r| == Min(RecentLimit, |alerts|)
  {
    var sorted := SortDesc(alerts, KeyOf(conv));
    SortDescOrderedPermutation(alerts, KeyOf(conv));
    sorted[..Min(RecentLimit, |sorted|)]
  }

  /** The alerts that do not make it into the recent list. */
  function LeftOutEntries(alerts: seq<JValue>, conv: Conversions): seq<JValue> {
    var sorted := SortDesc(alerts, KeyOf(conv));
    sorted[Min(RecentLimit, |sorted|)..]
  }

  /** The recent list is newest first by numeric timestamp; together with
      the alerts left out it is exactly the input; and no alert left out is
      newer than an alert shown. */
  lemma RecentEntriesAreNewest(alerts: seq<JValue>, conv: Conversions)
    ensures NonIncreasing(RecentEntries(alerts, conv), KeyOf(conv))
    ensures multiset(RecentEntries(alerts, conv)) + multiset(LeftOutEntries(alerts, conv)) == multiset(alerts)
    ensures forall x, y :: x in LeftOutEntries(alerts, conv) && y in RecentEntries(alerts, conv) ==>
      KeyOf(conv)(x) <= KeyOf(conv)(y)
  {
    var key := KeyOf(conv);
    var sorted := SortDesc(alerts, key);
    SortDescOrderedPermutation(alerts, key);
    var n := Min(RecentLimit, |sorted|);
    SortedCut(sorted, key, n);
    assert sorted == sorted[..n] + sorted[n..];
  }

  /** Alerts with equal sort keys are listed in the order the log holds
      them. */
  lemma RecentEntriesKeepLogOrder(alerts: seq<JValue>, conv: Conversions, k: real)
    ensures WithKey(SortDesc(alerts, KeyOf(conv)), KeyOf(conv), k) == WithKey(alerts, KeyOf(conv), k)
  {
    SortDescStable(alerts, KeyOf(conv), k);
  }

  /** When the log has at most 50 alerts, all of them are listed. */
  lemma ShortLogListedWhole(alerts: seq<JValue>, conv: Conversions)
    requires |alerts| <= RecentLimit
    ensures multiset(RecentEntries(alerts, conv)) == multiset(alerts)
  {
    RecentEntriesAreNewest(alerts, conv);
    SortDescOrderedPermutation(alerts, KeyOf(conv));
    assert LeftOutEntries(alerts, conv) == [];
  }

  /** One line of the recent-alerts text (lines 489-497). */
  datatype RecentLine = RecentLine(time: string, address: string, action: string, reason: string) {
    /** The four parts joined by ` - `. */
    function Text(): string {
      time + " - " + address + " - " + action + " - " + reason
    }
  }

  /** The line shown for one alert: its epoch timestamp formatted in local
      time, or the raw timestamp where that fails; the address or
      `unknown`; the action as written (not upper-cased); the reason. */
  function Render(entry: JValue, conv: Conversions): RecentLine {
    var ts := FieldValue(entry, "timestamp");
    var time :=
      match FloatOf(ts, conv)
      case Some(x) => if conv.epochInRange(x) then conv.formatLocal(x) else Display(ts, conv)
      case None => Display(ts, conv);
    var ip := Address(entry);
    RecentLine(
      time,
      if Truthy(ip) then Display(ip, conv) else "unknown",
      match Field(entry, "action") case Some(a) => Display(a, conv) case None => "",
      match Field(entry, "reason") case Some(r) => Display(r, conv) case None => "")
  }

  /** The line shown for each alert. */
  function RenderFor(conv: Conversions): JValue -> RecentLine {
    e => Render(e, conv)
  }

  /** The lines for `entries`, in order. */
  function RenderAll(entries: seq<JValue>, conv: Conversions): seq<RecentLine> {
    MapAll(entries, RenderFor(conv))
  }

  /** One line per entry, each the rendering of its entry. */
  lemma RenderAllFollowsEntries(entries: seq<JValue>, conv: Conversions)
    ensures |RenderAll(entries, conv)| == |entries|
    ensures forall i :: 0 <= i < |entries| ==> RenderAll(entries, conv)[i] == Render(entries[i], conv)
  {
    MapAllAt(entries, RenderFor(conv));
  }

  /** The second loop (lines 486-497): one line per recent alert. */
  method BuildRecentLines(alerts: seq<JValue>, conv: Conversions) returns (lines: seq<RecentLine>)
    ensures lines == RenderAll(RecentEntries(alerts, conv), conv)
  {
    var recent := RecentEntries(alerts, conv);
    lines := [];
    for i := 0 to |recent|
      invariant lines == MapAll(recent[..i], RenderFor(conv))
    {
      assert recent[..i + 1][..i] == recent[..i];
      lines := lines + [Render(recent[i], conv)];
    }
    assert recent[..|recent|] == recent;
  }

  /** Line 503 as written: whether some alert's `action`, read with `""`
      as the default for a missing key and upper-cased, is BLOCKED. `any`
      scans from the front and stops at the first match; the result is
      `None` where `.upper()` is reached on an action that is not a string
      (including `null`, `false` and `0`) and Python raises. */
  function AutoBlockAsWritten(alerts: seq<JValue>): Option<bool> {
    if alerts == [] then Some(false)
    else if !alerts[0].JObj? then None
    else match Field(alerts[0], "action")
      case None => AutoBlockAsWritten(alerts[1..])
      case Some(a) =>
        if !a.JStr? then None
        else if Upper(a.s) == "BLOCKED" then Some(true)
        else AutoBlockAsWritten(alerts[1..])
  }

  /** Line 503 as intended: automatic blocking is shown on when some alert
      is BLOCKED, judged the same way as at line 449. */
  function AutoBlockOn(alerts: seq<JValue>): bool {
    alerts != [] && (IsBlocked(alerts[0]) || AutoBlockOn(alerts[1..]))
  }

  /** The flag is on exactly when some alert is BLOCKED. */
  lemma {:induction false} AutoBlockOnIff(alerts: seq<JValue>)
    ensures AutoBlockOn(alerts) <==> exists i :: 0 <= i < |alerts| && IsBlocked(alerts[i])
  {
    if alerts != [] {
      AutoBlockOnIff(alerts[1..]);
      if exists i :: 0 <= i < |alerts| && IsBlocked(alerts[i]) {
        var i :| 0 <= i < |alerts| && IsBlocked(alerts[i]);
        if i > 0 {
          assert alerts[1..][i - 1] == alerts[i];
        }
      }
      if exists i :: 0 <= i < |alerts[1..]| && IsBlocked(alerts[1..][i]) {
        var i :| 0 <= i < |alerts[1..]| && IsBlocked(alerts[1..][i]);
        assert alerts[i + 1] == alerts[1..][i];
      }
    }
  }

  /** A non-zero blocked count always comes with automatic blocking on. */
  lemma BlockedAddressMeansAutoBlock(alerts: seq<JValue>)
    requires BlockedAddresses(alerts) != {}
    ensures AutoBlockOn(alerts)
  {
    var k :| k in BlockedAddresses(alerts);
    BlockedAddressesMembers(alerts, k);
    AutoBlockOnIff(alerts);
  }

  /** Where the code as written does not raise, it agrees with the
      corrected flag. */
  lemma {:induction false} AutoBlockAsWrittenAgrees(alerts: seq<JValue>)
    requires AutoBlockAsWritten(alerts).Some?
    ensures AutoBlockAsWritten(alerts) == Some(AutoBlockOn(alerts))
  {
    if alerts != [] {
      match Field(alerts[0], "action")
      case None =>
        AutoBlockAsWrittenAgrees(alerts[1..]);
      case Some(a) =>
        if Upper(a.s) != "BLOCKED" {
          assert Upper("") == "";
          AutoBlockAsWrittenAgrees(alerts[1..]);
        }
    }
  }

  /** An alert whose `action` is `null`. */
  const QuietAlert: JValue := JObj(map["action" := JNull])

  /** An alert that blocked 10.0.0.1. */
  const BlockingAlert: JValue := JObj(map["action" := JStr("BLOCKED"), "ip" := JStr("10.0.0.1")])

  /** The alert without an action gets through lines 447-475. */
  lemma QuietAlertScans(conv: Conversions)
    ensures EntryScans(QuietAlert, conv)
  {
    assert FieldValue(QuietAlert, "timestamp") == JNull;
    QuietAlertNotBlocked();
  }

  /** The alert without an action blocks nothing. */
  lemma QuietAlertNotBlocked()
    ensures ActionText(QuietAlert) == Some("") && !IsBlocked(QuietAlert)
  {
    assert FieldValue(QuietAlert, "action") == JNull;
  }

  /** The BLOCKED alert gets through lines 447-475. */
  lemma BlockingAlertScans(conv: Conversions)
    ensures EntryScans(BlockingAlert, conv)
  {
    BlockingAlertBlocks();
    BlockingAlertFields();
    assert EntryInstant(BlockingAlert, conv) == None;
  }

  /** The BLOCKED alert puts its address into the set. */
  lemma BlockingAlertBlocks()
    ensures BlocksAddress(BlockingAlert) && Address(BlockingAlert) == JStr("10.0.0.1")
  {
    BlockingAlertFields();
    assert ActionText(BlockingAlert) == Some("BLOCKED");
  }

  /** What `get` reads from the BLOCKED alert. */
  lemma BlockingAlertFields()
    ensures FieldValue(BlockingAlert, "action") == JStr("BLOCKED")
    ensures FieldValue(BlockingAlert, "ip") == JStr("10.0.0.1")
    ensures FieldValue(BlockingAlert, "timestamp") == JNull
    ensures Upper("BLOCKED") == "BLOCKED"
  {
    UpperKeepsCapitals("BLOCKED");
    var fields := BlockingAlert.fields;
    assert fields["action"] == JStr("BLOCKED") && fields["ip"] == JStr("10.0.0.1");
    assert "timestamp" !in fields;
  }

  /** The discrepancy: an alert whose `action` is `null` passes lines
      447-475 (line 449 reads it as "no action") and the blocked count is
      1, yet line 503 raises on it, although a later alert is BLOCKED. */
  lemma NullActionRaisesAtLine503(conv: Conversions)
    ensures AllScan([QuietAlert, BlockingAlert], conv)
    ensures |BlockedAddresses([QuietAlert, BlockingAlert])| == 1
    ensures AutoBlockAsWritten([QuietAlert, BlockingAlert]).None?
    ensures AutoBlockOn([QuietAlert, BlockingAlert])
  {
    BothAlertsScan(conv);
    BothAlertsBlockOnce();
    BothAlertsRaise();
  }

  lemma BothAlertsScan(conv: Conversions)
    ensures AllScan([QuietAlert, BlockingAlert], conv)
  {
    QuietAlertScans(conv);
    BlockingAlertScans(conv);
    var both := [QuietAlert, BlockingAlert];
    assert both[0] == QuietAlert && both[1] == BlockingAlert;
  }

  lemma BothAlertsBlockOnce()
    ensures |BlockedAddresses([QuietAlert, BlockingAlert])| == 1
  {
    QuietAlertNotBlocked();
    BlockingAlertBlocks();
    CollectPair(QuietAlert, BlockingAlert, BlocksAddress, BlockedKey);
  }

  lemma BothAlertsRaise()
    ensures AutoBlockAsWritten([QuietAlert, BlockingAlert]).None?
    ensures AutoBlockOn([QuietAlert, BlockingAlert])
  {
    var both := [QuietAlert, BlockingAlert];
    QuietAlertFirstRaises([BlockingAlert]);
    assert [QuietAlert] + [BlockingAlert] == both;
    assert both[1..] == [BlockingAlert];
    BlockingAlertBlocks();
  }

  /** Line 503 raises as soon as it reaches the alert whose action is
      `null`. */
  lemma QuietAlertFirstRaises(rest: seq<JValue>)
    ensures AutoBlockAsWritten([QuietAlert] + rest) == None
  {
    var s := [QuietAlert] + rest;
    assert s[0] == QuietAlert;
    assert Field(QuietAlert, "action") == Some(JNull);
  }

  /** The automatic-blocking card: "BẬT" (`On`) or "TẮT" (`Off`). */
  datatype AutoBlockStatus = On | Off

  /** The recent-alerts text box: the placeholder, or one line per alert. */
  datatype AlertsText = NoAlertsYet | Lines(lines: seq<RecentLine>)

  /** The card values lines 447-510 display for alerts that all scan. */
  datatype Cards = Cards(blockedCount: string, todayAlerts: string, autoBlock: AutoBlockStatus, recent: AlertsText)

  /** The cards for `alerts` at time `now`: the number of distinct blocked
      addresses, the number of alerts dated today, the auto-blocking flag of
      line 503 and the newest alerts, rendered. */
  function CardsFor(alerts: seq<JValue>, conv: Conversions, now: real): Cards {
    Cards(
      ShowInt(|BlockedAddresses(alerts)|),
      ShowInt(TodayCount(alerts, conv, MidnightUtc(now))),
      if AutoBlockOn(alerts) then On else Off,
      Lines(RenderAll(RecentEntries(alerts, conv), conv)))
  }

  /** What lines 447-510 leave on the cards for a non-empty list of alerts:
      nothing when the scan raises; only the two counters when line 503
      raises after lines 500-501 have set them; all four cards otherwise. */
  datatype Update = Raised | CountsOnly(blockedCount: string, todayAlerts: string) | Full(cards: Cards)

  /** Lines 447-510 for a non-empty list of alerts. The flag is computed as
      line 503 is written; where that does not raise it is the corrected
      flag of `CardsFor`. */
  method ComputeCards(alerts: seq<JValue>, conv: Conversions, now: real) returns (r: Update)
    ensures r.Raised? <==> !AllScan(alerts, conv)
    ensures r.CountsOnly? <==> AllScan(alerts, conv) && AutoBlockAsWritten(alerts).None?
    ensures r.CountsOnly? ==>
      && r.blockedCount == CardsFor(alerts, conv, now).blockedCount
      && r.todayAlerts == CardsFor(alerts, conv, now).todayAlerts
    ensures r.Full? ==> r.cards == CardsFor(alerts, conv, now)
  {
    var scan := ScanAlerts(alerts, conv, MidnightUtc(now));
    if scan.ScanRaised? {
      return Raised;
    }
    var blocked, today := ShowInt(|scan.blocked|), ShowInt(scan.today);
    var lines := BuildRecentLines(alerts, conv);
    match AutoBlockAsWritten(alerts)
    case None =>
      r := CountsOnly(blocked, today);
    case Some(on) =>
      AutoBlockAsWrittenAgrees(alerts);
      r := Full(Cards(blocked, today, if on then On else Off, Lines(lines)));
  }

  /** The three dashboard cards and the recent-alerts box. */
  class DashboardView {
    var blockedCount: string
    var todayAlerts: string
    var autoBlock: AutoBlockStatus
    var recent: AlertsText

    /** The values the window starts with (lines 36-38, 160). */
    constructor ()
      ensures blockedCount == "0" && todayAlerts == "0" && autoBlock == Off && recent == NoAlertsYet
    {
      blockedCount, todayAlerts, autoBlock, recent := "0", "0", Off, NoAlertsYet;
    }

    /** Lines 423-510 once the alerts are read: with no alerts the counters
        go back to "0" and the flag is kept; when the scan raises nothing is
        updated; when line 503 raises only the two counters are; otherwise
        every card is replaced. */
    method Publish(alerts: seq<JValue>, conv: Conversions, now: real)
      modifies this
      ensures alerts == [] ==>
        && blockedCount == "0" && todayAlerts == "0"
        && autoBlock == old(autoBlock) && recent == NoAlertsYet
      ensures alerts != [] && !AllScan(alerts, conv) ==>
        && blockedCount == old(blockedCount) && todayAlerts == old(todayAlerts)
        && autoBlock == old(autoBlock) && recent == old(recent)
      ensures alerts != [] && AllScan(alerts, conv) && AutoBlockAsWritten(alerts).None? ==>
        && blockedCount == CardsFor(alerts, conv, now).blockedCount
        && todayAlerts == CardsFor(alerts, conv, now).todayAlerts
        && autoBlock == old(autoBlock) && recent == old(recent)
      ensures alerts != [] && AllScan(alerts, conv) && AutoBlockAsWritten(alerts).Some? ==>
        Cards(blockedCount, todayAlerts, autoBlock, recent) == CardsFor(alerts, conv, now)
    {
      if alerts == [] {
        // The flag only ever holds "BẬT" or "TẮT", so line 427 keeps it.
        blockedCount, todayAlerts, recent := "0", "0", NoAlertsYet;
      } else {
        var update := ComputeCards(alerts, conv, now);
        match update
        case Raised =>
        case CountsOnly(blocked, today) =>
          ShowCounts(blocked, today);
        case Full(cards) =>
          Show(cards);
      }
    }

    /** Puts `c` on the cards (lines 500-510). */
    method Show(c: Cards)
      modifies this
      ensures Cards(blockedCount, todayAlerts, autoBlock, recent) == c
    {
      blockedCount, todayAlerts, autoBlock, recent := c.blockedCount, c.todayAlerts, c.autoBlock, c.recent;
    }

    /** Sets the two counters and leaves the rest (lines 500-501). */
    method ShowCounts(blocked: string, today: string)
      modifies this
      ensures blockedCount == blocked && todayAlerts == today
      ensures autoBlock == old(autoBlock) && recent == old(recent)
    {
      blockedCount, todayAlerts := blocked, today;
    }

    /** `update_dashboard_from_logs`: the alerts read from `file`,
        published at time `now`. */
    method UpdateFromLogs(file: AlertLog.LogFile, decode: AlertLog.Decoder, conv: Conversions, now: real)
      modifies this
      ensures var alerts := AlertLog.Alerts(file, decode);
        alerts == [] ==>
          && blockedCount == "0" && todayAlerts == "0"
          && autoBlock == old(autoBlock) && recent == NoAlertsYet
      ensures var alerts := AlertLog.Alerts(file, decode);
        alerts != [] && !AllScan(alerts, conv) ==>
          && blockedCount == old(blockedCount) && todayAlerts == old(todayAlerts)
          && autoBlock == old(autoBlock) && recent == old(recent)
      ensures var alerts := AlertLog.Alerts(file, decode);
        alerts != [] && AllScan(alerts, conv) && AutoBlockAsWritten(alerts).None? ==>
          && blockedCount == CardsFor(alerts, conv, now).blockedCount
          && todayAlerts == CardsFor(alerts, conv, now).todayAlerts
          && autoBlock == old(autoBlock) && recent == old(recent)
      ensures var alerts := AlertLog.Alerts(file, decode);
        alerts != [] && AllScan(alerts, conv) && AutoBlockAsWritten(alerts).Some? ==>
          Cards(blockedCount, todayAlerts, autoBlock, recent) == CardsFor(alerts, conv, now)
    {
      var alerts := AlertLog.LoadAlerts(file, decode);
      Publish(alerts, conv, now);
    }
  }
}
