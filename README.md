# Firewall GUI: alert dashboard and Fail2Ban tab, modelled in Dafny

This project models the two data-handling parts of a Tkinter firewall
console.

- **The alert dashboard** (`FirewallGUI.load_alerts` and
  `FirewallGUI.update_dashboard_from_logs` in `main_gui.py`).
  - Reading the alert log: one JSON document, or one JSON value per line.
  - The count of distinct blocked addresses and the count of alerts dated
    today (UTC).
  - The automatic-blocking flag.
  - The 50 most recent alerts, as text lines.
- **The Fail2Ban tab** (`Fail2BanTab` in `fail2ban_tab.py`).
  - Running `fail2ban-client`.
  - Parsing three things from its `status` output: the jail list, the
    `Currently banned:` count and the `Banned IP list:` addresses.
  - The jail and banned-address tables, and the selections in them.
  - The "unban selected" and "unban all" actions.

Modules:

- `Wrappers`: `Option`.
- `PyText`: the Python string operations the code relies on:
  - `str.isspace`, `strip`, `splitlines`, `split(sep)` and `split()`;
  - `int()` and `str()` on integers;
  - ASCII `upper`;
  - `in`.
- `Json`: decoded JSON values, Python truthiness and `dict.get`.
- `StableSort`: `sorted(..., key=..., reverse=True)` as a stable insertion
  sort. It is proved ordered, a permutation of its input, and stable.
- `AlertLog`: `load_alerts`.
- `Dashboard`:
  - the loop of lines 445-475;
  - `_get_ts` and the recent list;
  - the flag of line 503;
  - the `DashboardView` class, whose fields are the three cards and the
    recent-alerts box.
- `Fail2BanStatus`: `_run_fb` and the three parsers.
- `Fail2BanTab`: the `Tab` class (both tables and their selections), the
  row builders and the unban request loop.

Everything the code gets from its environment is a parameter:

- **The log file** is a `LogFile`: missing, unreadable, or its text.
- **`json.loads`** is a `Decoder`. It gives `None` where `JSONDecodeError`
  is raised.
- **Library conversions.** The dashboard depends on five, bundled in a
  `Conversions` value:
  - `float` on strings;
  - the range check of `datetime.fromtimestamp`;
  - `datetime.fromisoformat`;
  - `str` of a non-string value;
  - local-time formatting.
- **The current time** is epoch seconds. UTC midnight is computed from it.
- **`fail2ban-client`** is a `Client`: a function from the argument list
  to a `CommandResult` (succeeded with its output, failed with what it
  captured, or not found).
  - The refresh that follows an unban reads a second `Client`, because the
    daemon's state has changed by then.
  - Each unban attempt's result comes from an `attempt` function. The code
    ignores that result.
- **User choices** are parameters: the table selections and the answer to
  the confirmation dialog.

Where the code raises, the model says so.

- Line 447: an alert that is not an object.
- Line 449: an alert whose truthy `action` is not a string.
- Line 464: a blocked address that cannot be hashed.
- Line 467: a naive ISO time compared with the aware midnight.
- Line 503: an alert, reached before any BLOCKED one, whose `action` key
  holds something other than a string, `null` included.

On the first four the update raises before any card is touched, so the
cards keep their old values. On the last, lines 500-501 have already set
the two counters; the flag and the recent-alerts box keep their old
values. `periodic_update` swallows the error; the first update, run from
the constructor (line 47), lets it escape.

## Model

| member | source | states |
|---|---|---|
| AlertLog.LoadAlerts | main_gui.py:382-417 | The result covers every case: no alerts for a missing or unreadable file and for blank text. A whole-text object is wrapped in a list, an array is returned as it is, and any other JSON value gives nothing. When the whole text does not decode, the result is the line-by-line fallback, with at most one record per line. |
| AlertLog.DecodeLines | main_gui.py:404-413 | The line loop returns exactly the records of the non-blank, stripped lines that decode, in file order. |
| AlertLog.LineRecordsLength | main_gui.py:404-413 | The fallback yields at most one record per line. |
| AlertLog.LineRecordsAppend | main_gui.py:405-412 | Lines decode independently: the fallback over `a + b` is the fallback over `a` followed by the fallback over `b`. |
| AlertLog.BrokenLineSkipped | main_gui.py:409-412 | A line that is blank or fails to decode is dropped without affecting the lines around it. |
| AlertLog.AllLinesDecode | main_gui.py:405-413 | When every line decodes, there is one record per line, and record `i` is the decoding of stripped line `i`. |
| AlertLog.RecordsComeFromLines | main_gui.py:405-413 | Every record returned is the decoding of some line of the file. |
| AlertLog.OneBrokenLineAmongValid | main_gui.py:394-413 | A file whose whole text does not decode, with one broken line among valid ones, yields exactly the valid lines' records: the decoded lines before the broken one, in order, then the decoded lines after it. |
| Dashboard.AddressIsFirstTruthy | main_gui.py:448 | The address is truthy exactly when one of `ip`, `src_ip`, `source` is. It is then the first truthy one of them, in that order. |
| Dashboard.MidnightUtc | main_gui.py:441-443 | The boundary is the start of the UTC day containing `now`: at most `now`, less than one day before it, and a whole multiple of 86400 seconds. |
| Dashboard.ScanAlerts | main_gui.py:445-475 | The loop raises exactly when some alert does not scan. Otherwise it returns the set of blocked addresses and the number of alerts for today. |
| Dashboard.CollectMembers | main_gui.py:437-464 | A set built by adding `key(x)` for each `x` that satisfies `p` holds `k` exactly when some such element has key `k`. |
| Dashboard.BlockedAddressesMembers | main_gui.py:463-464 | An address is in `blocked_ips` exactly when some BLOCKED alert names it, whatever the number of such alerts. |
| Dashboard.BlockedCountBound | main_gui.py:463-464 | There are never more distinct blocked addresses than alerts that block an address. |
| Dashboard.RepeatedAddressCountsOnce | main_gui.py:463-464 | A further BLOCKED alert for an address already in the set leaves the set unchanged. |
| Dashboard.SameAddressTwice | main_gui.py:463-464 | Two BLOCKED alerts for the same address give a count of 1. |
| Dashboard.TodayPartition | main_gui.py:466-471 | Every alert is counted for today or is dated before midnight, never both: the two counts add up to the number of alerts. |
| Dashboard.TodayCountBound | main_gui.py:466-471 | The count for today is at most the number of alerts. It equals that number when no alert is dated before midnight. |
| Dashboard.UndatedAlertsAllCount | main_gui.py:466-471 | When no alert has a readable time, none is dated before midnight and the day's count equals the number of alerts. |
| Dashboard.MissingTimestampSortsAsZero | main_gui.py:479-484 | A missing or falsy timestamp, or one `float` rejects, gives sort key 0. |
| Dashboard.RecentEntries | main_gui.py:486-488 | The recent list holds min(50, number of alerts) entries. |
| Dashboard.RecentEntriesAreNewest | main_gui.py:486-488 | The recent list is in non-increasing timestamp-key order. With the alerts left out, it is a permutation of the input. No alert left out has a larger key than one that is shown. |
| Dashboard.RecentEntriesKeepLogOrder | main_gui.py:486 | Alerts with equal keys keep their log order through the sort: `reverse=True` does not reverse ties. |
| Dashboard.ShortLogListedWhole | main_gui.py:486-488 | A log of at most 50 alerts is listed in full, as a permutation of the alerts. |
| Dashboard.RenderAllFollowsEntries | main_gui.py:488-497 | There is one line per recent entry, and line `i` renders entry `i`. |
| Dashboard.BuildRecentLines | main_gui.py:487-497 | The second loop yields the rendering of each recent entry, in order. |
| Dashboard.AutoBlockOnIff | main_gui.py:503 | The corrected flag is on exactly when some alert is BLOCKED, judging the action as line 449 does. |
| Dashboard.BlockedAddressMeansAutoBlock | main_gui.py:463-503 | A non-empty blocked set always comes with automatic blocking on. |
| Dashboard.AutoBlockAsWrittenAgrees | main_gui.py:503 | Where line 503 as written does not raise, its result equals the corrected flag. |
| Dashboard.NullActionRaisesAtLine503 | main_gui.py:449-503 | Take two alerts: one with a `null` action, then one BLOCKED alert. Both get through lines 445-475 and the blocked count is 1. Line 503 as written then raises, although the corrected flag is on. |
| Dashboard.ComputeCards | main_gui.py:445-510 | For non-empty alerts, three outcomes. `Raised` exactly when the scan raises. Only the two counters (the distinct blocked count and today's count) exactly when the scan completes and line 503 as written raises. Otherwise all four card values, with the flag equal to the corrected flag. |
| Dashboard.DashboardView.constructor | main_gui.py:36-38 | The cards start at "0", "0", off, and the placeholder text. |
| Dashboard.DashboardView.Publish | main_gui.py:421-510 | With no alerts, both counters go back to "0", the flag is kept and the placeholder is shown. When the scan raises, nothing changes. When line 503 raises, the two counters take their new values and the flag and the recent-alerts box keep their old ones. Otherwise all four cards are replaced by the values computed from the alerts. |
| Dashboard.DashboardView.Show | main_gui.py:500-510 | All four cards show exactly the given values. |
| Dashboard.DashboardView.ShowCounts | main_gui.py:500-501 | The two counters show the given values; the flag and the recent-alerts box are unchanged. |
| Dashboard.DashboardView.UpdateFromLogs | main_gui.py:419-510 | The cards end up as `Publish` leaves them for the alerts read from the log, in each of its four cases. |
| StableSort.SortDescOrderedPermutation | main_gui.py:486 | The sort's output is in non-increasing key order, is a permutation of its input and has the same length. |
| StableSort.SortDescStable | main_gui.py:486 | For every key, the elements carrying it appear in the output in input order. |
| StableSort.SortedCut | main_gui.py:488 | Cutting a sorted sequence leaves a sorted front. Nothing behind the cut has a larger key than anything in front. |
| PyText.Strip | main_gui.py:406 | The result has no surrounding whitespace and fits inside the input after its leading whitespace. |
| PyText.StripIsSlice | main_gui.py:406 | The result is the input with its leading and trailing whitespace removed, and nothing else: it is the middle slice, and everything cut off is whitespace. |
| PyText.StripOfStripped | fail2ban_tab.py:123 | Stripping a string that has no surrounding whitespace returns it unchanged. |
| PyText.StripAfterBlank | fail2ban_tab.py:138 | Leading whitespace in front of a text that starts with a non-whitespace character is removed, and the rest is stripped as the text alone would be. |
| PyText.StripKeepsHead | fail2ban_tab.py:138 | A head that starts with a non-whitespace character survives `strip` whole when the text after it also starts with one. |
| PyText.SplitLines | fail2ban_tab.py:118 | No line holds a line break, and there are no more lines than characters. |
| PyText.SplitLinesConcat | fail2ban_tab.py:118 | Putting the lines back together gives the text minus its line breaks. |
| PyText.SplitLinesCut | fail2ban_tab.py:118 | A line without breaks, then `\n`, then any rest: `splitlines` gives that line first and then the lines of the rest, so each line ends at the next break. |
| PyText.SplitLinesJoin | fail2ban_tab.py:118 | `'\n'.join(lines).splitlines() == lines` for lines without breaks whose last line is not empty. |
| PyText.SplitOn | fail2ban_tab.py:123 | `split(sep)` gives at least one part, and no part holds `sep`. |
| PyText.JoinSplitOn | fail2ban_tab.py:123 | Splitting on `sep` and joining with `sep` gives the text back. |
| PyText.SplitWs | fail2ban_tab.py:167 | `split()` gives only non-empty words without whitespace. |
| PyText.SplitWsConcat | fail2ban_tab.py:167 | The words put together are the text minus its whitespace. |
| PyText.SplitWsAfterBlank | fail2ban_tab.py:167 | Leading whitespace does not change the words `split()` gives. |
| PyText.SplitWsCut | fail2ban_tab.py:167 | A non-empty word without whitespace, then a non-empty whitespace run, then any rest: `split()` gives that word first and then the words of the rest, so each word ends at the next whitespace. |
| PyText.ParseShowInt | fail2ban_tab.py:140-145 | `int(str(n)) == n` for every integer; the model has no limit on the number of digits (see "Left out"). |
| PyText.Upper | main_gui.py:449 | Upper-casing keeps the length and maps each character to its ASCII upper case. |
| PyText.AfterFirst | fail2ban_tab.py:122 | `split(':', 1)[1]` exists exactly when the text has a colon. It is what follows the first one. |
| Fail2BanStatus.NoOutputGivesDefaults | fail2ban_tab.py:74-81 | A missing executable, or a failure that printed nothing, gives empty text. That text reads as no jails, count 0 and no addresses. |
| Fail2BanStatus.StrippedTokens | fail2ban_tab.py:123 | The comprehension keeps at most as many tokens as parts, each stripped and non-empty. |
| Fail2BanStatus.JailsFromLine | fail2ban_tab.py:122-123 | Every jail name read from a line is non-empty, stripped and holds no comma. |
| Fail2BanStatus.ParseJailList | fail2ban_tab.py:117-126 | The jail-list loop returns the names on the first `Jail list` line, or none when there is no such line. |
| Fail2BanStatus.FirstJailLineWins | fail2ban_tab.py:118-126 | Only the first `Jail list` line counts. Whatever follows it is ignored. |
| Fail2BanStatus.JailListRoundTrip | fail2ban_tab.py:116-123 | Clean names printed as fail2ban prints them, `` `- Jail list:``, a tab and the names joined by `, `, read back as exactly those names. |
| Fail2BanStatus.JailListPaddedRoundTrip | fail2ban_tab.py:122-123 | With any whitespace around the commas, no blank part and none at the two ends of the list, the jail-list line reads back as the stripped parts. |
| Fail2BanStatus.ParseBannedCount | fail2ban_tab.py:133-142 | The count loop returns the value of the last `Currently banned:` line, 0 when there is none, and 0 when that value does not parse. |
| Fail2BanStatus.LastCountLineWins | fail2ban_tab.py:136-142 | A later `Currently banned:` line overrides every earlier one. |
| Fail2BanStatus.BannedCountRoundTrip | fail2ban_tab.py:138-140 | A bare line, `Currently banned:`, a tab and `str(n)` with nothing before the label, reads back as `n`, for negative `n` too. |
| Fail2BanStatus.UnreadableCountIsZero | fail2ban_tab.py:139-142 | A count that `int` rejects reads as 0. |
| Fail2BanStatus.NonBlankOfWords | fail2ban_tab.py:167 | The filter of line 167 keeps every word that `split()` gives. |
| Fail2BanStatus.IpsFromLine | fail2ban_tab.py:164-167 | The addresses read from a line are non-empty and hold no whitespace. |
| Fail2BanStatus.BannedListLineHasColon | fail2ban_tab.py:164-165 | On a `Banned IP list:` line, `split(':', 1)[1]` is what follows the label. |
| Fail2BanStatus.BannedIpsOf | fail2ban_tab.py:161-168 | Every address read from a status output is non-empty and holds no whitespace. |
| Fail2BanStatus.ParseBannedIps | fail2ban_tab.py:161-168 | The banned-list loop returns the words of the first `Banned IP list:` line, or none when there is no such line. |
| Fail2BanStatus.FirstBannedListLineWins | fail2ban_tab.py:162-168 | Only the first `Banned IP list:` line counts, even when it is empty. |
| Fail2BanStatus.SplitWsJoin | fail2ban_tab.py:167 | `' '.join(words).split() == words` for non-empty words without whitespace. |
| Fail2BanStatus.BannedListRoundTrip | fail2ban_tab.py:164-167 | Addresses printed space-separated after a bare `Banned IP list:` label and a tab, with nothing before the label, read back as exactly those addresses. |
| Fail2BanStatus.TreeLineStrips | fail2ban_tab.py:138 | `strip` of a field drawn as a tree (indentation, `\|- ` or `` `- ``, label, tab, value) keeps the tree marker in front of the stripped labelled value. |
| Fail2BanStatus.TreeCountLineMissed | fail2ban_tab.py:137-142 | As written, a `Currently banned:` field drawn as a tree is not a count line, and a status made of it reads as count 0, whatever number it shows. |
| Fail2BanStatus.TreeListLineMissed | fail2ban_tab.py:162-168 | As written, a `Banned IP list:` field drawn as a tree is not a list line, and a status made of it reads as no addresses, whatever it lists. |
| Fail2BanStatus.FieldText | fail2ban_tab.py:138 | The corrected field text, the stripped line with a leading tree marker and the whitespace after it removed, is itself stripped. |
| Fail2BanStatus.TreeBannedIpsOf | fail2ban_tab.py:161-168 | Every address the corrected reader takes from a status output is non-empty and holds no whitespace. |
| Fail2BanStatus.FieldTextOfTreeLine | fail2ban_tab.py:138 | The corrected field text of a tree line is its labelled value, stripped: the marker and indentation are gone. |
| Fail2BanStatus.TreeCountRoundTrip | fail2ban_tab.py:137-142 | The corrected reader takes a tree-drawn count field for a count line and reads it back as its number. |
| Fail2BanStatus.TreeListRoundTrip | fail2ban_tab.py:162-168 | The corrected reader takes a tree-drawn banned-list field for a list line and reads it back as exactly its addresses. |
| Fail2BanStatus.TreeLineFields | fail2ban_tab.py:138-165 | On a tree line, the corrected readers see what the readers as written see on the bare labelled line. |
| Fail2BanStatus.ReadersIgnoreStrip | fail2ban_tab.py:138-165 | The readers as written strip the line first, so a line and its stripped form read the same. |
| Fail2BanStatus.TreeReadersAgreeOnBareLines | fail2ban_tab.py:138-165 | On a line without a tree marker, the corrected readers accept exactly the lines the readers as written accept, and read the same count and addresses. |
| Fail2BanTab.SelectedIps | fail2ban_tab.py:181 | Address `k` is the address column of selected row `k`. |
| Fail2BanTab.JailRowsFollowJails | fail2ban_tab.py:129-145 | There is one jail row per listed jail, in list order. |
| Fail2BanTab.JailRowColumns | fail2ban_tab.py:132-145 | A jail's row holds its name, `OK`, an empty filter and a count that reads back as the count parsed from its status. |
| Fail2BanTab.BannedRowsFollowIps | fail2ban_tab.py:172-173 | There is one banned row per address, with `-` for time and count. |
| Fail2BanTab.RequestsFollowIps | fail2ban_tab.py:219-221 | Exactly one unban request per address, in list order, each naming the jail and that address. |
| Fail2BanTab.RequestsAppend | fail2ban_tab.py:193-197 | Each address is unbanned independently: the requests for `a + b` are those for `a` followed by those for `b`. |
| Fail2BanTab.RefreshShowsPrintedJails | fail2ban_tab.py:115-145 | When `status` prints the jail-list line for some names, joined by `, ` as fail2ban prints them, and each jail's status is a bare `Currently banned:` line with its count, the table shows exactly those jails with those counts. |
| Fail2BanTab.MissingClientShowsNoJails | fail2ban_tab.py:115-126 | Without `fail2ban-client`, the jail table stays empty. |
| Fail2BanTab.SendUnbans | fail2ban_tab.py:193-197 | One request is sent per address, in order. An attempt that raises does not stop the ones after it. |
| Fail2BanTab.ListJails | fail2ban_tab.py:115-145 | The rows `refresh` inserts are the refreshed rows for the client. |
| Fail2BanTab.ListBanned | fail2ban_tab.py:159-173 | The rows inserted for a jail are one per address its status lists. |
| Fail2BanTab.JailRowsFor | fail2ban_tab.py:129-145 | The insertion loop builds one row per jail, with the count parsed from that jail's status. |
| Fail2BanTab.BannedRowsFor | fail2ban_tab.py:172-173 | The insertion loop builds one row per address. |
| Fail2BanTab.Tab.constructor | fail2ban_tab.py:71 | The tab refreshes itself once on construction. |
| Fail2BanTab.Tab.Refresh | fail2ban_tab.py:108-145 | Both tables are cleared, which also clears their selections, and the jail table holds one row per listed jail. |
| Fail2BanTab.Tab.SelectJails | fail2ban_tab.py:147-152 | Selecting jails sets the selection and loads the banned table for the first selected jail. An empty selection changes nothing else. |
| Fail2BanTab.Tab.SelectBanned | fail2ban_tab.py:177 | Selecting addresses changes only the banned selection. |
| Fail2BanTab.Tab.LoadBannedForJail | fail2ban_tab.py:154-173 | The banned table is replaced by one row per address the jail's status lists. The jail table and its selection are unchanged. |
| Fail2BanTab.Tab.UnbanSelected | fail2ban_tab.py:176-198 | With no selected address, no selected jail or a declined confirmation, nothing is sent and the tab is unchanged. Otherwise one request goes out per selected address, for the first selected jail, and the tab is refreshed from the later client. |
| Fail2BanTab.Tab.UnbanAll | fail2ban_tab.py:200-224 | With no selected jail or a declined confirmation, nothing is sent and the tab is unchanged. Otherwise one request goes out per address the jail's status lists at that moment, and the tab is refreshed. |

## Left out

- Tkinter itself: widgets, layout, fonts, scrollbars, message boxes and their texts, the 5-second timer and window closing. The model keeps what the widgets hold: the card texts, the recent lines as a list, the table rows and the selected row indices.
- The status label of `refresh` (fail2ban_tab.py:98-106) and the `systemctl` start/stop/restart buttons (fail2ban_tab.py:84-94): they run a service manager outside the part modelled.
- `print` of read errors (main_gui.py:416) and of unban errors (fail2ban_tab.py:197): output only.
- `_run_fb` (fail2ban_tab.py:74-81) catches only `CalledProcessError` and `FileNotFoundError`. Any other exception of `check_output`, such as `PermissionError` for an executable that may not be run or `UnicodeDecodeError` for output that is not valid text, propagates to the caller. `CommandResult` has no case for it, so `RunFb` never raises.
- Log reading errors: every exception `open`/`read` raises is one `Unreadable` case, which the code answers with no alerts.
- `json.loads`: only `JSONDecodeError` is modelled as failure. Other exceptions (a `RecursionError` on very deep nesting) are not. JSON numbers are exact reals, so `NaN`, `Infinity` and float rounding are not modelled.
- `float`, `datetime.fromtimestamp`, `datetime.fromisoformat`, `str` of non-strings and `strftime` in local time are parameters (`Conversions`), not models of CPython. An ISO time is an `Instant` with an `aware` flag, and its offset is taken as already applied.
- Dashboard.FloatOf: `float` of a string is a parameter returning an exact real or nothing. CPython also accepts `inf`, `nan` and overflowing literals such as `1e999`, which give infinities or NaN. Those values are not modelled, so neither is their effect on the sort of line 486 (a NaN key breaks the ordering) nor the `fromtimestamp` error they cause.
- Dashboard.Render: `formatLocal` cannot fail. In the code, the conversion and `astimezone` of main_gui.py:490-495 sit in one `try`, so a failure of either falls back to `str(ts)`. The model has that fallback only for a timestamp that `fromtimestamp` rejects (`epochInRange`).
- Dashboard.MidnightUtc: computes the UTC midnight from epoch seconds. It does not model `datetime.now` or leap seconds.
- Dashboard.ScanAlerts: the first loop also builds recent lines, which line 487 throws away. Those lines are not modelled, so a failure they alone would raise is not modelled either; the only such failure is `astimezone` on an extreme time.
- PyText.Upper: ASCII case mapping only. Python's full Unicode `upper` (`ß` becomes `SS`, for instance) is not modelled.
- PyText.ParseInt: accepts ASCII digits, an optional sign and single underscores between digits. Non-ASCII digits are not modelled, nor is CPython's limit on the number of digits (see the next line).
- PyText.ParseShowInt: `int(str(n)) == n` holds in the model for integers of any size. CPython 3.11 and later, and the security releases 3.10.7, 3.9.14, 3.8.14 and 3.7.14, refuse to convert a decimal string of more than 4300 digits by default (`sys.set_int_max_str_digits` and `PYTHONINTMAXSTRDIGITS` change the limit). There `int` raises `ValueError`, and the bare `except` at fail2ban_tab.py:141-142 turns it into a count of 0. The model has no such limit, so a count of more than 4300 digits reads back as itself, not as 0. The limit depends on the interpreter's version and settings, which are outside the code.
- Fail2BanStatus.IpsFromLine: when the line has no colon it gives no addresses. That case cannot arise for the lines it is given (see `BannedListLineHasColon`).
- Treeview's coercion of inserted values (a jail or address that looks like a number reads back as an `int`) is not modelled. Rows read back exactly as inserted.
- Fail2BanTab.Tab.UnbanSelected and Fail2BanTab.Tab.UnbanAll: the model records the unban requests and ignores what each comes to, as the code does; `fail2ban-client`'s own reaction is not modelled. The daemon's state before and after unbanning is two `Client` values, not one changing service.
- Concurrency: the periodic update and button handlers run on one Tk thread, so nothing concurrent is modelled.
- The code disagrees with the behaviour one would expect in these places, and the model follows the code:
  - Banned count: the code accepts a negative count (`int` takes a sign).
  - Action normalisation: a missing or falsy action reads as `""`, not as `UNKNOWN`, and recognised action names are not checked.
  - Address: `""` or `0` under `ip` falls through to the next key, because the code tests truthiness, not presence.
  - Sort key: a missing timestamp sorts as 0, not below every other time, so an alert with a negative timestamp sorts after it.
  - Malformed alerts: a non-object alert, a truthy non-string action, an unhashable blocked address and a naive ISO time raise out of the update instead of being normalised.

## Findings

| source | as written | input that shows it | evidently intended | confidence | as-written member | corrected member |
|---|---|---|---|---|---|---|
| main_gui.py:503 | The automatic-blocking flag calls `.upper()` on `entry.get('action', '')`. This skips the truthiness guard that line 449 applies to the same field: a key present with `null`, `false` or `0` gives a value that has no `.upper()`. | The alerts `[{"action": null}, {"action": "BLOCKED", "ip": "10.0.0.1"}]`. Lines 445-475 accept both, and lines 500-501 set the counts to 1 and 2. Line 503 then raises `AttributeError`, which `periodic_update` swallows. The flag and the recent-alerts box are left stale. | The flag is on when some alert's action, read as at line 449, is BLOCKED, and the update completes. | not executed | Dashboard.AutoBlockAsWritten, Dashboard.NullActionRaisesAtLine503 | Dashboard.AutoBlockOn, Dashboard.AutoBlockOnIff |
| fail2ban_tab.py:138-164 | The count and list readers test `l.strip().startswith(label)`. fail2ban draws the fields of `status <jail>` as a tree, as in `   \|- Currently banned:\t1` and ``   `- Banned IP list:\t10.0.0.1``. After `strip` these lines start with the tree marker, so neither test ever matches them. | `status sshd` printing `   \|- Currently banned:\t1`: the jail row shows 0 banned, and the banned table stays empty for ``   `- Banned IP list:\t10.0.0.1``. | The label is looked for after the tree marker, so the row shows 1 and the table lists 10.0.0.1. | not executed; depends on the tree layout of fail2ban's output, which is not part of this model | Fail2BanStatus.TreeCountLineMissed, Fail2BanStatus.TreeListLineMissed | Fail2BanStatus.TreeCountRoundTrip, Fail2BanStatus.TreeListRoundTrip |

The dashboard and the tab follow the code as written. For line 503 the
dashboard computes the flag with `AutoBlockAsWritten`; where that does not
raise, `AutoBlockAsWrittenAgrees` shows it equals the corrected
`AutoBlockOn`, which `CardsFor` publishes. The tab reads counts and
addresses with the readers as written; the corrected readers
(`TreeBannedCountOf`, `TreeBannedIpsOf`) agree with them on lines without a
tree marker (`TreeReadersAgreeOnBareLines`).
