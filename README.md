# SNMP mini-dashboard, modelled in Dafny

`python/snmp_overview.py` is a one-shot dashboard for a Net-SNMP agent. It
issues scalar GETs for the system name, the uptime, the load averages and the
memory figures. It walks the `dskPath` column of the UCD-SNMP disk table
(`1.3.6.1.4.1.2021.9.1.2`) to find the row of the root filesystem. It then
issues GETs for the total, used and percent columns at that row, and prints
the results. Every field degrades to "absent" (`n/a`) on its own when a query
fails.

This project models the integer- and string-level rules of that program:

- `snmp_get`: how the value is chosen from a reply.
- `snmp_walk`: how bindings are flattened up to the first failed reply.
- The root-row search loop in `main` (first match, then `break`), and the
  OIDs of the sibling columns built from the row it finds.
- `str(val).strip('"')`.
- `human_uptime`, including the output of Python's `str(timedelta)` for
  non-negative whole seconds.
- `to_int`, restricted to canonical decimal text.
- The truthiness guard on `mem_used_kib`.

The model has one module per concern:

| module | models |
|---|---|
| `Wrappers` | `Option` (absent / present) |
| `Seqs` | associativity and slicing facts about sequences used by the proofs |
| `Decimal` | `str(n)` for an int, and `int(text)` on canonical decimal text |
| `Quotes` | `strip('"')` |
| `SnmpValues` | the value types in a binding, `str(val)`, `to_int` |
| `Queries` | replies, `snmp_get`, and `snmp_walk` (a specification function `Walk` plus the generator loop as the method `SnmpWalk`) |
| `Uptime` | `human_uptime`, with a parser for the rendered text that proves it loses nothing but the sub-second ticks |
| `DiskTable` | `split('.')[-1]`, the root-row search (a specification function `RootIndex` plus the loop as the method `FindRootIndex`), and sibling-column OIDs |
| `Dashboard` | the fixed GET list of `main`, the memory and disk fields, and the assembled `Snapshot` (a specification function `Assemble` plus the method `CollectSnapshot`) |

How the agent is represented:

- For GETs, the agent is a function from OID to the reply it gives.
- For the walk, the agent is the sequence of replies the GETNEXT iterator
  produces.
- Host, community, timeout and retries do not affect any rule modelled here,
  so they do not appear.

Two behaviours of the code worth noting:

- `strip('"')` removes every leading and trailing double quote, not just one
  surrounding layer (`Quotes.StripQuotesSeveralLayers`).
- `to_int` strips no quotes, so a quoted number does not coerce
  (`SnmpValues.ToIntOfQuoted`).

## Model

| member | source | states |
|---|---|---|
| `Decimal.IntToDecimal` | python/snmp_overview.py:55 | `str(i)` for any int: a '-' before the digits of a negative number |
| `Decimal.NatToDecimal` | python/snmp_overview.py:55 | `str(n)` is a non-empty run of digits with no leading zero (unless n is 0) that denotes n |
| `Decimal.ParseNat` | python/snmp_overview.py:55 | reading unsigned digits succeeds exactly on non-empty all-digit text |
| `Decimal.ParseInt` | python/snmp_overview.py:55-57 | canonical `int(text)` succeeds exactly on an optional sign followed by at least one digit; absent stands for the caught exception |
| `Decimal.ParseNatOfDecimal` | python/snmp_overview.py:55 | reading back `str(n)` gives n |
| `Decimal.ParseIntOfDecimal` | python/snmp_overview.py:55 | `int(str(i)) == i` for every int, negative ones included |
| `Decimal.ParseIntRejects` | python/snmp_overview.py:55-57 | a character that is neither a digit nor a leading sign makes canonical `int()` fail, so the result is absent |
| `Decimal.ParseNatLeadingZero` | python/snmp_overview.py:55 | a leading zero is accepted and does not change the value |
| `Quotes.StripLeading` | python/snmp_overview.py:81 | `lstrip('"')`: drops quotes from the front one at a time |
| `Quotes.StripTrailing` | python/snmp_overview.py:81 | `rstrip('"')`: drops quotes from the end one at a time |
| `Quotes.StripQuotes` | python/snmp_overview.py:81 | `strip('"')`: the leading quotes, then the trailing ones, removed |
| `Quotes.StripLeadingSpec` | python/snmp_overview.py:81 | `lstrip('"')` drops exactly the run of quotes at the front; what is left is a suffix that does not start with a quote |
| `Quotes.StripTrailingSpec` | python/snmp_overview.py:81 | `rstrip('"')` drops exactly the run of quotes at the end; what is left is a prefix that does not end with a quote |
| `Quotes.StripQuotesIsTrim` | python/snmp_overview.py:81 | `strip('"')` gives a contiguous slice of its input; everything cut off on either side is a quote; the result neither starts nor ends with one |
| `Quotes.StripQuotesUnchanged` | python/snmp_overview.py:81 | text that neither starts nor ends with a quote is left as it is |
| `Quotes.StripQuotesIdempotent` | python/snmp_overview.py:81 | stripping twice is stripping once |
| `Quotes.StripQuotesOneLayer` | python/snmp_overview.py:81 | `"/"` in quotes strips to `/` |
| `Quotes.StripQuotesSeveralLayers` | python/snmp_overview.py:81 | unbalanced, repeated quotes are all removed, not just one layer |
| `Quotes.StripQuotesOnlyQuotes` | python/snmp_overview.py:81 | text made only of quotes strips to the empty text |
| `SnmpValues.Str` | python/snmp_overview.py:55 | `str(val)`: the decimal text of an integer or TimeTicks value, the text of an octet string |
| `SnmpValues.PyStr` | python/snmp_overview.py:55 | `str(val)` where `val` may be `None`, which renders as "None" |
| `SnmpValues.ToInt` | python/snmp_overview.py:53-57 | `to_int(val)` is present exactly when `str(val)` is decimal text |
| `SnmpValues.ToIntAbsent` | python/snmp_overview.py:53-57 | `to_int(None)` is absent, because `int("None")` raises |
| `SnmpValues.ToIntOfInteger` | python/snmp_overview.py:53-57 | an integer value coerces to itself |
| `SnmpValues.ToIntOfTimeTicks` | python/snmp_overview.py:53-57 | a TimeTicks value coerces to its tick count |
| `SnmpValues.ToIntOfQuoted` | python/snmp_overview.py:53-57 | a number in quotes does not coerce |
| `Queries.Failed` | python/snmp_overview.py:20-23 | `errInd or errStat`: an error indication is present or the error status is non-zero (also line 35) |
| `Queries.SnmpGet` | python/snmp_overview.py:19-24 | the result is absent exactly when the error indication or the error status is set; otherwise it is the first binding's value |
| `Queries.FirstFailure` | python/snmp_overview.py:35-36 | the position of the first failed reply: every reply before it succeeded, and the one at it failed |
| `Queries.Walk` | python/snmp_overview.py:26-38 | what `snmp_walk` yields: the bindings of each reply in turn, up to the first failed reply |
| `Queries.SnmpWalk` | python/snmp_overview.py:26-38 | the generator loop, which returns at the first failed reply and yields each binding in turn, produces exactly `Walk` of the replies |
| `Queries.WalkIsFlattenBeforeFailure` | python/snmp_overview.py:27-38 | the walk is the in-order concatenation of all bindings of all replies before the first failed one |
| `Queries.WalkAfterFailure` | python/snmp_overview.py:35-36 | once a failed reply has been seen, later replies change nothing |
| `Queries.WalkAfterClean` | python/snmp_overview.py:27-38 | without a failure in a, the walk of a then b is all of a's bindings followed by b's walk |
| `Queries.WalkStopsAtFailure` | python/snmp_overview.py:35-36 | nothing from a failed reply, or from a reply after it, is emitted |
| `Queries.WalkOfPrefix` | python/snmp_overview.py:26-38 | the walk of the first n replies is a prefix of the walk of all replies |
| `Queries.WalkWithoutFailure` | python/snmp_overview.py:37-38 | with no failed reply, the walk is every binding of every reply, in order |
| `Queries.WalkOfFailedStart` | python/snmp_overview.py:27-36 | an empty reply list, or one whose first reply fails, walks to nothing |
| `Uptime.DaySeparator` | python/snmp_overview.py:45 | the text after the day count: " day, " for exactly one day, " days, " otherwise |
| `Uptime.DayPrefix` | python/snmp_overview.py:45 | the day part of `str(timedelta)`: empty for no whole day, else the count and its separator |
| `Uptime.Clock` | python/snmp_overview.py:45 | `H:MM:SS` of the seconds within a day, as `timedelta.__str__` renders them |
| `Uptime.Duration` | python/snmp_overview.py:45 | `str(timedelta(seconds=n))`: no day part, "1 day, " or "D days, ", then the clock of the seconds within the day |
| `Uptime.HumanUptime` | python/snmp_overview.py:40-45 | `human_uptime`: "n/a" for absent ticks, otherwise the duration of ticks // 100 seconds |
| `Uptime.Pad2` | python/snmp_overview.py:45 | `%02d` of a number below 100 is two digits denoting it |
| `Uptime.ClockArithmetic` | python/snmp_overview.py:44-45 | splitting the seconds of a day into hours below 24 and minutes and seconds below 60 loses nothing |
| `Uptime.ClockShape` | python/snmp_overview.py:45 | the clock is the hours, ':', two minute digits, ':', two second digits, with no blank |
| `Uptime.ClockRoundTrip` | python/snmp_overview.py:45 | reading a rendered clock back gives the seconds it was rendered from |
| `Uptime.DurationBelowOneDay` | python/snmp_overview.py:45 | below 86400 seconds `str(timedelta)` is the bare clock |
| `Uptime.DurationWithDays` | python/snmp_overview.py:45 | from 86400 seconds on, it is the day count, its separator and the clock of the remaining seconds |
| `Uptime.DurationRoundTripDays` | python/snmp_overview.py:45 | a duration of one day or more reads back to its seconds |
| `Uptime.DurationRoundTrip` | python/snmp_overview.py:45 | every rendered duration reads back to the seconds it was rendered from |
| `Uptime.HumanUptimeRoundTrip` | python/snmp_overview.py:43-45 | `human_uptime` keeps every whole second: its text reads back as ticks div 100 |
| `Uptime.HumanUptimeAbsent` | python/snmp_overview.py:41-42 | absent ticks give "n/a" |
| `Uptime.HumanUptimeWholeSeconds` | python/snmp_overview.py:43-45 | tick counts with the same quotient by 100 render identically |
| `Uptime.HumanUptimeBelowOneDay` | python/snmp_overview.py:43-45 | below one day the text is `H:MM:SS` with H = n div 3600 and MM, SS two digits each, denoting the minutes and seconds below 60; it holds no blank and reads back as n |
| `Uptime.HumanUptimeSeveralDays` | python/snmp_overview.py:45 | from two days on, the day count is followed by " days, " and the clock of the rest |
| `Uptime.HumanUptimeZero` | python/snmp_overview.py:43-45 | 0 ticks give "0:00:00" |
| `Uptime.HumanUptimeOneHour` | python/snmp_overview.py:43-45 | 360000 ticks give "1:00:00" |
| `Uptime.HumanUptimeOneDay` | python/snmp_overview.py:43-45 | 8640000 ticks give "1 day, 0:00:00", in the singular |
| `DiskTable.LastComponent` | python/snmp_overview.py:82 | `oid.split('.')[-1]`: the characters after the last '.' |
| `DiskTable.IsRootPath` | python/snmp_overview.py:81 | `text.strip('"') == "/"` |
| `DiskTable.IsRootEntry` | python/snmp_overview.py:81 | `str(val).strip('"') == "/"` for the value of a binding |
| `DiskTable.RootIndex` | python/snmp_overview.py:79-83 | the last OID component of the first entry whose value strips to "/", or absent |
| `DiskTable.ColumnOid` | python/snmp_overview.py:86-88 | the f-string `column.{root_idx}` |
| `DiskTable.LastComponentSpec` | python/snmp_overview.py:82 | `split('.')[-1]` is the longest suffix without a '.': either the whole text or what follows a '.' |
| `DiskTable.FirstRootEntry` | python/snmp_overview.py:80-83 | the position of the first entry whose value strips to "/": no entry before it does, and the one at it does |
| `DiskTable.FindRootIndex` | python/snmp_overview.py:79-83 | the search loop with its `break` computes exactly `RootIndex` of the walk |
| `DiskTable.RootIndexAbsent` | python/snmp_overview.py:79-83 | the row index is absent exactly when no entry's value strips to "/" (an empty walk included) |
| `DiskTable.RootIndexOfFirstMatch` | python/snmp_overview.py:80-83 | with a match, the row index is the last OID component of the first matching entry; later matches are ignored |
| `DiskTable.RootIndexHasNoDot` | python/snmp_overview.py:82 | a resolved row index holds no '.' |
| `DiskTable.RootIndexOfExtension` | python/snmp_overview.py:83 | entries after a match do not change the row index |
| `DiskTable.RootIndexFromFetchedReplies` | python/snmp_overview.py:80-83 | once the replies fetched so far hold the match, no later reply of the walk can change the row index |
| `DiskTable.ColumnOidRoundTrip` | python/snmp_overview.py:86-88 | the row index read back from a sibling-column OID is the row it was built from |
| `DiskTable.RootIndexExample` | python/snmp_overview.py:80-83 | rows "/boot", "/", "/var" resolve to row "2" |
| `Dashboard.IsTruthy` | python/snmp_overview.py:75 | truthiness of an optional int in `mem_total_kib and mem_avail_kib`: present and non-zero |
| `Dashboard.HasRow` | python/snmp_overview.py:85 | `if root_idx:`: a row index that is present and not empty |
| `Dashboard.Get` | python/snmp_overview.py:11-24 | one `snmp_get` call: the value `SnmpGet` picks from the agent's reply, with the OID appended to the log of issued GETs |
| `Dashboard.Ticks` | python/snmp_overview.py:43 | `int(timeticks)` of the uptime value, or absent |
| `Dashboard.DiskOids` | python/snmp_overview.py:85-88 | the three disk OIDs at the row when `if root_idx:` holds, none otherwise |
| `Dashboard.Disk` | python/snmp_overview.py:85-90 | the three disk columns at the row through `to_int`, or all absent |
| `Dashboard.Requests` | python/snmp_overview.py:66-88 | every OID `main` GETs, in order |
| `Dashboard.Assemble` | python/snmp_overview.py:65-90 | the integer and text fields `main` computes from the agent and the walk replies |
| `Dashboard.MemUsed` | python/snmp_overview.py:75 | used memory is present exactly when total and available are both present and non-zero, and then used + available = total |
| `Dashboard.MemUsedExample` | python/snmp_overview.py:75 | 2000000 and 500000 KiB give 1500000; a zero available figure gives absent |
| `Dashboard.DiskOidsAtRow` | python/snmp_overview.py:85-88 | with a row index the disk GETs are `...9.1.6.`, `...9.1.8.` and `...9.1.9.` followed by the index, and each reads back to that index |
| `Dashboard.DiskReadsOnlyDiskOids` | python/snmp_overview.py:85-90 | the disk fields depend on the agent only at the disk OIDs |
| `Dashboard.NoRowNoDisk` | python/snmp_overview.py:85-90 | without a row index (none found, or an empty one) no disk GET is issued and all three disk fields are absent |
| `Dashboard.AssembleReadsOnlyRequests` | python/snmp_overview.py:65-90 | two agents that agree on the requested OIDs give the same snapshot |
| `Dashboard.CollectSnapshot` | python/snmp_overview.py:65-90 | `main` up to the printing computes exactly `Assemble` of the agent and the walk replies, and issues its GETs in the order `Requests` lists them: name, uptime, the three load averages, total and available memory, then the disk OIDs of the resolved row |
| `Dashboard.SilentAgent` | python/snmp_overview.py:65-90 | an agent that answers nothing gives every field absent and uptime "n/a" |

## Left out

- The `pysnmp` transport (engine, community, UDP target, timeout, retries), along with host and community from `sys.argv`. It is network I/O behind a foreign library, so replies are inputs of the model.
- `to_float`, `kib_to_mib`, `mem_used_pct` and the load averages. They are floating point. `Dashboard.CollectSnapshot` still issues the three load-average GETs, but discards their values.
- The `print` layout of `main`, including its `.1f`/`.2f` formatting. It is console output whose content is mostly float rendering.
- `Decimal.ParseInt`: models `int()` only on canonical decimal text (ASCII digits with an optional sign). It does not model the surrounding whitespace, underscores or non-ASCII digits that Python also accepts.
- `SnmpValues.ToInt`: built on `Decimal.ParseInt`, so it has the same restriction to canonical decimal text.
- `Uptime.HumanUptime`: does not model the `OverflowError` that `timedelta` raises beyond 999999999 days. Only non-negative ticks exist, since TimeTicks are unsigned.
- `Dashboard.Assemble`: requires a successful `sysUpTime.0` reply to carry TimeTicks. With another value type, `human_uptime` would either raise or render a different number.
- `Dashboard.CollectSnapshot`: carries the same TimeTicks requirement, as do `NoRowNoDisk`, `AssembleReadsOnlyRequests` and `SilentAgent`.
- `Queries.SnmpGet`: requires a successful reply to carry at least one binding. Python would raise `IndexError` otherwise, and the library never returns such a reply.
- Python's generator laziness. `SnmpWalk` runs the walk to the end, and `FindRootIndex` then scans the result. That the early `break` makes later replies irrelevant is stated by `Queries.WalkOfPrefix` and `DiskTable.RootIndexFromFetchedReplies`.
- The `or []` after `snmp_walk(...)`. A generator object is always truthy, so it never applies.
- `Dashboard.Ticks`: models `int(timeticks)` only for TimeTicks values (see `Dashboard.Assemble` above).
- `python/test_snmp_raw.py` is not part of this model. It performs one GET and prints the result.
