# access-watch Elasticsearch plugin, modelled in Dafny

This project models the Elasticsearch output plugin of access-watch
(`src/plugins/elasticsearch/index.js`). The plugin has four parts, and the
model covers each:

- **Daily indices and retention.** Every log goes to the index of its UTC
  day, `<logsIndexName>-YYYY-MM-DD`. A log is written only if its time is
  after the GC date, which is `now - retention` days. A garbage-collection
  pass lists all indices and deletes those whose name contains the base
  name and whose date falls before the GC date.
- **The index memo.** `indexesDb` is a process-wide dictionary. Each index
  is checked for existence at most once, and created only when the check
  finds it missing. Nothing ever removes an entry, not even the garbage
  collector.
- **The query translator.** It turns a query of the plugin's API into the
  body of an Elasticsearch search:
  - a time range;
  - filter clauses, which are exact `match` or case-insensitive substring
    `regexp` depending on a filter registry;
  - a size and an optional aggregation.
- **Session search.** Robot and address sessions are a `terms` aggregation
  over logs. Their buckets are joined with an identity lookup, in bucket
  order.

Modules, one per file:

| module | what it holds |
|---|---|
| `Wrappers` (`wrappers.dfy`) | `Option` |
| `Strings` (`strings.dfy`) | the JavaScript string operations the plugin uses, over `seq<char>`: `slice`, `replace` (global one-character and first-occurrence), `indexOf`, and number rendering |
| `Calendar` (`calendar.dfy`) | proleptic Gregorian dates, conversion between a day count and a civil date (`DaysFromCivil` proved to invert `CivilFromDays`), the UTC day of a millisecond instant, and local midnight of a date |
| `IndexNamer` (`index_namer.dfy`) | `generateIndexName`, `getIndexDate`, the `new Date("YYYY/MM/DD")` parse, and `getGcDate` |
| `QueryDsl` (`query_dsl.dfy`) | the query clauses the plugin emits, as a datatype, and what each means for a document, including the Lucene regular-expression fragment it writes |
| `QueryTranslator` (`query_translator.dfy`) | `caseInsentivizeRegexpValue`, `prefixIfNeeded`, `getESValue`, and the request `search` builds, with a proof that the request selects exactly the documents the query describes |
| `SessionSearch` (`session_search.dfy`) | `searchSessions` (query merge, bucket shaping, lookup join), `searchRobots`, `searchAddresses`, and `searchLogs` |
| `IndexLifecycle` (`index_lifecycle.dfy`) | the `IndexManager` class: the `indexesDb` map, a ghost trace of Elasticsearch client calls, `createIndexIfNotExists`, `indexLog` and `indexesGc` |
| `ErrorReport` (`error_report.dfy`) | the message `reportOnError` reports |

Inputs the plugin takes from its environment are parameters:

- the current time `now`, in milliseconds since the epoch;
- the host's time-zone offset `tzOffsetMs`;
- the filter registry of the SDK, a sequence of `(id, fullText)` entries;
- the identity lookups `getRobot` and `getAddress`, modelled as a function `string -> Option<Record>`;
- the answers of the Elasticsearch client: the existence check's reply, the index listing, and the search answer.

## Model

| member | source | states |
|---|---|---|
| Strings.SliceFrom | src/plugins/elasticsearch/index.js:18 | `slice(k)` is the part of the string after its first `k` characters (the two put together give the string back), and empty when `k` is past the end |
| Strings.ReplaceAll | src/plugins/elasticsearch/index.js:18 | `replace(/-/g, '/')` keeps the length, leaves no `-` behind and keeps every other character in place |
| Strings.ReplaceAllHomomorphic | src/plugins/elasticsearch/index.js:18 | the global replace works character by character: it maps the empty string to itself, a single character to its replacement, and a concatenation to the concatenation of the replaced parts |
| Strings.DecimalValueOfNatToString | src/plugins/elasticsearch/index.js:15 | reading a rendered year back as a decimal number gives the year |
| Strings.IndexOf | src/plugins/elasticsearch/index.js:80 | `indexOf` gives the first position where the substring occurs, and -1 exactly when it occurs nowhere |
| Strings.ReplaceFirst | src/plugins/elasticsearch/index.js:28 | `replace` with a string pattern replaces only the first occurrence, and changes nothing without one |
| Calendar.CivilFromDaysValid | src/plugins/elasticsearch/index.js:15 | every day number maps to a valid calendar date, with the month's length and leap years respected |
| Calendar.CivilFromDaysInverse | src/plugins/elasticsearch/index.js:15 | the calendar date of a day number maps back to that day number |
| Calendar.UtcDateOf | src/plugins/elasticsearch/index.js:15 | the UTC date of an instant is valid, and its day contains the instant |
| IndexNamer.GenerateIndexName | src/plugins/elasticsearch/index.js:14-15 | a generated name starts with the base name, followed by `-` and a non-empty date |
| IndexNamer.GetIndexDate | src/plugins/elasticsearch/index.js:17-18 | the date text is the tail of the name after the base name and one character, with each `-` turned into `/` and every other character kept; it is empty for a name no longer than that |
| IndexNamer.GcDate | src/plugins/elasticsearch/index.js:20-21 | the GC date is before now exactly when the retention is positive, and is now exactly when it is zero |
| IndexNamer.TwoDigits | src/plugins/elasticsearch/index.js:15 | `MM` and `DD` have two digits and read back as the month and the day |
| IndexNamer.ParseSlashDate | src/plugins/elasticsearch/index.js:82 | a parsed date has a year of at most four digits, a month from 1 to 12 and a day from 1 to 31 |
| IndexNamer.DateTextSeparators | src/plugins/elasticsearch/index.js:18 | replacing every `-` of `YYYY-MM-DD` by `/` gives `YYYY/MM/DD` of the same date |
| IndexNamer.SlashDateParses | src/plugins/elasticsearch/index.js:82 | `YYYY/MM/DD` of a date with a four-digit year parses back to that date |
| IndexNamer.IndexDateRoundTrip | src/plugins/elasticsearch/index.js:14-18 | for a four-digit year, `getIndexDate` of a generated name is exactly `YYYY/MM/DD` of the same date, and that text parses back to the date |
| IndexNamer.IndexNameTruncatesToDay | src/plugins/elasticsearch/index.js:14-18 | the index an instant is written to reads back as that instant's UTC day, and the GC compares the local midnight of that day |
| QueryDsl.AnyMatchesAll | src/plugins/elasticsearch/index.js:113 | the pattern `.*` matches every term |
| QueryDsl.LeadingAny | src/plugins/elasticsearch/index.js:113 | a leading `.*` lets the rest of the pattern match any suffix of the term |
| QueryTranslator.CharPatternMatch | src/plugins/elasticsearch/index.js:93-97 | the pattern of one character matches exactly that character in either case |
| QueryTranslator.CaseInsensitivize | src/plugins/elasticsearch/index.js:92-102 | the pattern is at least as long as the value, and a value with no letter in it is its own pattern |
| QueryTranslator.CaseInsensitivizeMatch | src/plugins/elasticsearch/index.js:92-102 | the case-insensitive pattern of a value consumes exactly a prefix equal to the value up to case |
| QueryTranslator.CaseInsensitivizeExample | src/plugins/elasticsearch/index.js:92-102 | `Ab-1` becomes `[aA][bB]-1`: letters become two-case classes, other characters stay |
| QueryTranslator.FullTextPatternMeaning | src/plugins/elasticsearch/index.js:92-102 | `.*v'.*` matches a term exactly when `v` occurs in it, ignoring case |
| QueryTranslator.PrefixIfNeeded | src/plugins/elasticsearch/index.js:104 | the prefixed id ends with the id, and equals it exactly for the `log` type |
| QueryTranslator.PrefixIfNeededInjective | src/plugins/elasticsearch/index.js:104 | for one type, two ids with the same prefixed id are the same id |
| QueryTranslator.FindFilterIndex | src/plugins/elasticsearch/index.js:104-107 | `find` stops at the first registry entry whose prefixed id is the field, and gives -1 exactly when none is |
| QueryTranslator.GetESValue | src/plugins/elasticsearch/index.js:106-118 | a full-text field gives the `regexp` `.*v'.*`; every other field gives `match` on the value |
| QueryTranslator.ValueMeaning | src/plugins/elasticsearch/index.js:106-118 | the condition of one value holds exactly when the document has the value: as a substring ignoring case for full-text fields, exactly otherwise |
| QueryTranslator.RequestShape | src/plugins/elasticsearch/index.js:120-176 | sort by `request.time` descending; `exists identity.id` first; a range only when `start` or `end` is truthy, with exactly those bounds; `aggs` only when given; index `<logsIndexName>-*`; `size` is `limit`; `must` only with a filter, and then the condition of each key in key order |
| QueryTranslator.BuildRequest | src/plugins/elasticsearch/index.js:120-176 | the request never selects a document without `identity.id`, nor one before a truthy `start` or after a truthy `end` |
| QueryTranslator.ClauseCondition | src/plugins/elasticsearch/index.js:140-152 | a clause with no values gives a condition that holds for every document when positive and for none when negative |
| QueryTranslator.ClauseShape | src/plugins/elasticsearch/index.js:140-152 | one value gives its bare condition, several a `should` in value order; `negative` wraps in `must_not` and nothing else does |
| QueryTranslator.AnyValueMeaning | src/plugins/elasticsearch/index.js:143-150 | the condition of one or more values (bare for one, a `should` for several) holds exactly when one of the values holds |
| QueryTranslator.ClauseMeaning | src/plugins/elasticsearch/index.js:140-152 | a clause's condition holds exactly when some value holds, negated for a negative clause |
| QueryTranslator.RequestMeaning | src/plugins/elasticsearch/index.js:120-167 | the search selects exactly the documents that have an identity, lie within the truthy time bounds and satisfy every filter clause |
| SessionSearch.SessionsQuery | src/plugins/elasticsearch/index.js:192-207 | the query sent always has an aggregation and a limit |
| SessionSearch.SessionsQueryPrecedence | src/plugins/elasticsearch/index.js:186-209 | each key of the query sent comes from the caller's query, else the constants, else the defaults; the terms size is `limit`, or 50 when `limit` is absent or 0 |
| SessionSearch.RobotConstantNotSent | src/plugins/elasticsearch/index.js:120-121 | the robot constant `identity.type` changes nothing in the request sent |
| SessionSearch.RobotSearchAdmitsOtherTypes | src/plugins/elasticsearch/index.js:229-236 | so a robot session search also matches a document whose `identity.type` is `browser` |
| SessionSearch.BucketsToSessions | src/plugins/elasticsearch/index.js:210-215 | buckets become `{id, count}` entries, one per bucket, in order |
| SessionSearch.FetchAll | src/plugins/elasticsearch/index.js:217 | `Promise.all` of the lookups fails exactly when one lookup fails; otherwise it gives every result, in order |
| SessionSearch.SessionsResult | src/plugins/elasticsearch/index.js:210-227 | a successful session search has one entry per bucket |
| SessionSearch.SessionsResultShape | src/plugins/elasticsearch/index.js:210-227 | a session search fails exactly when a lookup fails; otherwise it has the buckets' length and order, and each entry is its bucket's count overlaid by its identity data |
| SessionSearch.SessionsResultExample | src/plugins/elasticsearch/index.js:210-227 | buckets `x` (5) and `y` (2) with names `X` and `Y` give `[{count: 5, name: X}, {count: 2, name: Y}]` |
| SessionSearch.LogsRequest | src/plugins/elasticsearch/index.js:178-179 | `searchLogs` sends the caller's `limit` as the size and the caller's `aggs` unchanged |
| SessionSearch.Sources | src/plugins/elasticsearch/index.js:181 | mapping hits to their `_source` gives one document per hit, each the source of its hit, in order |
| SessionSearch.LogsResult | src/plugins/elasticsearch/index.js:178-184 | `searchLogs` gives the `_source` of every hit in order, or no logs when the answer has no hits |
| IndexLifecycle.Fresh | src/plugins/elasticsearch/index.js:50-52 | only a log with a request time is written, and with a positive retention a log timed now always is |
| IndexLifecycle.Doomed | src/plugins/elasticsearch/index.js:80-84 | a doomed index contains the base name and its date text parses |
| IndexLifecycle.GcVictims | src/plugins/elasticsearch/index.js:79-87 | the indices a pass deletes are no more than those listed, and every one of them is doomed |
| IndexLifecycle.GcVictimsSnoc | src/plugins/elasticsearch/index.js:79-87 | one more listed index adds itself to the end of the victims exactly when it is doomed |
| IndexLifecycle.GcVictimsExactly | src/plugins/elasticsearch/index.js:79-86 | a GC pass deletes exactly the listed indices whose name contains the base name anywhere and whose parsed date's local midnight is before the GC date |
| IndexLifecycle.EnsureKeepsMemo | src/plugins/elasticsearch/index.js:33-47 | ensuring a new index records one existence check, plus one creation exactly when the index is missing |
| IndexLifecycle.IndexManager.constructor | src/plugins/elasticsearch/index.js:23 | the memo starts empty and no call has been made |
| IndexLifecycle.IndexManager.CreateIndexIfNotExists | src/plugins/elasticsearch/index.js:33-47 | the first call for an index checks it, creates it only if missing and memoises the outcome; later calls return the entry and call nothing; every index has at most one check and one creation |
| IndexLifecycle.IndexManager.IndexLog | src/plugins/elasticsearch/index.js:49-74 | a log later than the GC date is written to the index of its UTC day, routed by `address.value`, after that index is ensured; any other log causes no call at all |
| IndexLifecycle.IndexManager.EnsureAndWrite | src/plugins/elasticsearch/index.js:53-62 | the log is written to the given index, routed by `address.value`, after the index is ensured (ensure calls only when it is not memoised) |
| IndexLifecycle.IndexManager.DeleteIfExpired | src/plugins/elasticsearch/index.js:80-86 | one listed index is deleted exactly when the GC dooms it |
| IndexLifecycle.IndexManager.IndexesGc | src/plugins/elasticsearch/index.js:76-90 | after one listing call, the doomed indices are deleted in listing order; a failed listing deletes nothing; the memo is left as it was |
| IndexLifecycle.GeneratedIndexDoomed | src/plugins/elasticsearch/index.js:80-84 | a generated index is doomed exactly when the local midnight of its date is before the GC date |
| IndexLifecycle.GcVictimsOfThree | src/plugins/elasticsearch/index.js:79-86 | a pass over three indices deletes the doomed ones in listing order |
| IndexLifecycle.GcExample | src/plugins/elasticsearch/index.js:76-90 | with a 30-day retention, the indices of 3, 10 and 40 days ago lose only the last, for any time of day and any real time-zone offset |
| IndexLifecycle.IndexIntoEmptyBackend | src/plugins/elasticsearch/index.js:49-68 | a current log on an empty backend checks the day's index, creates it, then writes the log with its address as routing |
| IndexLifecycle.IndexSameDayTwice | src/plugins/elasticsearch/index.js:33-54 | two logs of one UTC day share one ensure: one check, at most one creation, two writes |
| IndexLifecycle.SameDayDoomed | src/plugins/elasticsearch/index.js:20-21 | on a host at or ahead of UTC, a pass whose GC date is 1 ms before an instant later than its UTC midnight dooms the index of that instant's day |
| IndexLifecycle.GcDeletesDay | src/plugins/elasticsearch/index.js:76-90 | such a pass deletes the index of that day |
| IndexLifecycle.WriteMemoised | src/plugins/elasticsearch/index.js:33-34 | a current log whose index is memoised is written with no ensure call |
| IndexLifecycle.GcThenWrite | src/plugins/elasticsearch/index.js:33-90 | after the pass deletes the day's index, a later log of that day is written to it without checking or creating it again |
| IndexLifecycle.WriteAfterGc | src/plugins/elasticsearch/index.js:33-90 | the whole sequence: ensure, write, a pass deleting the index, then a write to the deleted index |
| ErrorReport.ErrorText | src/plugins/elasticsearch/index.js:28 | the reported text is the message without its first `Error :`, and the unchanged message when it has none |
| ErrorReport.UnmarkedKept | src/plugins/elasticsearch/index.js:28-30 | a message without `Error :` gives the status `Error: <message>` and the console line `Elasticsearch error: <message>` |
| ErrorReport.LeadingMarkerDropped | src/plugins/elasticsearch/index.js:27-29 | a message starting with `Error :` is reported without it, the rest intact |
| ErrorReport.FirstMarkerCut | src/plugins/elasticsearch/index.js:28 | the first `Error :` is cut out, and what precedes and what follows it are kept in order |

Notes on the code as written:

- **The robot constant is never sent.** `searchRobots` passes `'identity.type': 'robot'` as a top-level key of the query object (lines 229-236). `search` reads only `start`, `end`, `limit`, `aggs` and `filter` (line 121), so that key never reaches the request. A robot session search therefore counts documents of every identity type. The model follows the code. The constant's name and its place in `searchRobots` (lines 229-236) show that it was meant to restrict robot searches to robots.
- **The memo survives deletion.** On a host at or ahead of UTC, once the GC date is past the UTC midnight of its day, the garbage collector deletes the index of that day (the test at line 84 is a strict `<`, so at offset 0 a GC date exactly at that midnight spares it). Logs of that day that are later than the GC date are still current, and they are written to the deleted index without a new existence check or creation, because `indexesDb` still holds its entry. `WriteAfterGc` shows the whole call sequence.
- **Two clocks.** Index names use the UTC day (`format('YYYY-MM-DD', 0)`), but the GC reads a name back as local midnight (`new Date("YYYY/MM/DD")`). Every comparison therefore involves the host's time-zone offset, `tzOffsetMs`.

## Left out

- Elasticsearch client I/O. The `exists`, `create`, `index`, `get` and `delete` calls are recorded in a ghost trace, and their answers are parameters. The search request's wire format and `logs-index-config.json` are not modelled.
- Promise scheduling, including the in-flight sharing of a pending ensure. The memo is an ordinary map insertion. The promise chain after `reportOnError` swallows an error is not modelled; a failed existence check is the `Failed` reply, after which the log is still written.
- Timers (`setImmediate`, `setInterval`), `console` output, and the `monitor` status and hit counter. `ErrorReport` gives the text of the status and console line but no state.
- IndexLifecycle.IndexManager.IndexesGc: one `now` serves the whole pass. The source reads the clock afresh for each listed index, so its pass can straddle a GC-date change that the model's cannot.
- The `new Date(text)` of the GC is modelled as a strict parse. `YYYY/MM/DD` with a four-digit year, a month from 1 to 12 and a day from 1 to 31 is a date; any other text is an invalid date, which is never deleted. Lenient host parsing of other texts is not modelled.
- IndexLifecycle.Doomed: one time-zone offset `tzOffsetMs` serves every date. `new Date(text)` (line 82) uses the offset in force on the parsed date, so the daylight-saving changes between dates are not modelled.
- IndexNamer.IndexDateRoundTrip: covers only years 1000 to 9999. Other years render with a different number of digits and do not parse back.
- Unicode case mapping. `toLowerCase` and `toUpperCase` are modelled on ASCII letters only; other characters map to themselves.
- Regular expressions. The model matches only the Lucene regular-expression constructs the plugin writes: `.*`, two-character classes and literals. QueryTranslator.RequestMeaning assumes full-text values without regular-expression syntax; values with such syntax are sent as written, but their meaning is not modelled.
- QueryTranslator.RequestMeaning: also assumes every clause has at least one value. A positive clause with no values gives an empty `should`, which matches every document (QueryTranslator.ClauseCondition), whereas `Selects` matches none.
- `match` is taken as exact equality of the field value, as on keyword fields; analysed-text matching is not modelled.
- Time bounds are milliseconds in the model. The source sends them as ISO strings (`iso(start)`), which is not modelled.
- The body of `search` is built step by step in the source. The model builds it as a single value; the result is the same request.
- `logsEndpoint` and `elasticSearchBuilder` are not modelled: they wire HTTP handlers and the client.
- `src/modules/elasticsearch.js` is not part of this model: it binds routes and streams to the plugin.
