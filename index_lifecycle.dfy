/** The index lifecycle of the Elasticsearch plugin: the process-wide memo
    of ensured indices (`indexesDb`), the retention gate and routing of
    `indexLog`, and the selection of indices `indexesGc` deletes. Calls to
    the Elasticsearch client are recorded in a ghost trace; what the client
    answers is passed in. */
module IndexLifecycle {
  import opened Wrappers
  import opened Strings
  import opened Calendar
  import opened IndexNamer

  /** What `client.indices.exists` answered: the index is there, it is not,
      or the call failed (the failure is reported and swallowed, and the
      memoised operation resolves without creating anything). */
  datatype ExistsReply = Found | Missing | Failed

  /** A memoised ensure operation: the answer its existence check got. */
  datatype Entry = Entry(reply: ExistsReply)

  /** What `indexLog` reads of a log: `request.time` (None when it is not a
      valid date) and `address.value` (None when absent). */
  datatype LogRecord = LogRecord(requestTime: Option<int>, addressValue: Option<string>)

  /** A call to the Elasticsearch client. */
  datatype Call =
    | ExistsCall(index: string)
    | CreateCall(index: string)
    | IndexCall(index: string, routing: Option<string>, log: LogRecord)
    | ListCall
    | DeleteCall(index: string)

  /** The calls ensuring an index not memoised yet: the existence check, then
      a creation exactly when the index is missing. */
  function EnsureCalls(index: string, reply: ExistsReply): seq<Call> {
    [ExistsCall(index)] + if reply == Missing then [CreateCall(index)] else []
  }

  /** A log is written only when its time is strictly after the GC date. */
  predicate Fresh(log: LogRecord, now: int, retention: int)
    ensures Fresh(log, now, retention) ==> log.requestTime.Some?
    ensures log.requestTime == Some(now) && 0 < retention ==> Fresh(log, now, retention)
  {
    log.requestTime.Some? && log.requestTime.value > GcDate(now, retention)
  }

  /** The garbage collector deletes an index when its name contains the base
      name and its date's local midnight is strictly before the GC date. */
  predicate Doomed(logsIndexName: string, index: string, now: int, retention: int, tzOffsetMs: int)
    ensures Doomed(logsIndexName, index, now, retention, tzOffsetMs) ==>
      Contains(index, logsIndexName) && IndexDate(logsIndexName, index).Some?
  {
    && IndexOf(index, logsIndexName) != -1
    && match IndexDate(logsIndexName, index)
       case None => false
       case Some(d) => LocalMidnightMs(d, tzOffsetMs) < GcDate(now, retention)
  }

  /** The listed indices one GC pass deletes, in listing order. */
  function GcVictims(logsIndexName: string, names: seq<string>, now: int, retention: int, tzOffsetMs: int): (victims: seq<string>)
    ensures |victims| <= |names|
    ensures forall k :: 0 <= k < |victims| ==> Doomed(logsIndexName, victims[k], now, retention, tzOffsetMs)
  {
    if names == [] then []
    else
      var last := names[|names| - 1];
      GcVictims(logsIndexName, names[..|names| - 1], now, retention, tzOffsetMs)
      + if Doomed(logsIndexName, last, now, retention, tzOffsetMs) then [last] else []
  }

  function DeleteCalls(names: seq<string>): seq<Call> {
    seq(|names|, k requires 0 <= k < |names| => DeleteCall(names[k]))
  }

  lemma PrefixGrows<T>(s: seq<T>, i: int)
    requires 0 <= i < |s|
    ensures s[..i + 1] == s[..i] + [s[i]]
  {
  }

  lemma DeleteCallsAppend(a: seq<string>, b: seq<string>)
    ensures DeleteCalls(a + b) == DeleteCalls(a) + DeleteCalls(b)
  {
  }

  /** A GC pass deletes exactly the listed indices whose name contains the
      base name anywhere and whose date is strictly before the GC date; it
      leaves every other index alone. */
  lemma {:induction false} GcVictimsExactly(logsIndexName: string, names: seq<string>, now: int, retention: int, tzOffsetMs: int)
    ensures forall index :: index in GcVictims(logsIndexName, names, now, retention, tzOffsetMs) <==>
      && index in names
      && Contains(index, logsIndexName)
      && match IndexDate(logsIndexName, index)
         case None => false
         case Some(d) => LocalMidnightMs(d, tzOffsetMs) < GcDate(now, retention)
  {
    if names != [] {
      var init := names[..|names| - 1];
      GcVictimsExactly(logsIndexName, init, now, retention, tzOffsetMs);
      assert names == init + [names[|names| - 1]];
    }
    forall index { IndexOfFindsContained(index, logsIndexName); }
  }

  /** How many times a call occurs in a trace. */
  ghost function Occurrences(trace: seq<Call>, c: Call): nat {
    if trace == [] then 0
    else Occurrences(trace[..|trace| - 1], c) + if trace[|trace| - 1] == c then 1 else 0
  }

  lemma OccurrencesAppend(trace: seq<Call>, more: seq<Call>, c: Call)
    ensures Occurrences(trace + more, c) == Occurrences(trace, c) + Occurrences(more, c)
    decreases |more|
  {
    if more == [] {
      assert trace + more == trace;
    } else {
      var init := more[..|more| - 1];
      assert (trace + more)[..|trace + more| - 1] == trace + init;
      assert (trace + more)[|trace + more| - 1] == more[|more| - 1];
      OccurrencesAppend(trace, init, c);
    }
  }

  /** Each memoised index had exactly one existence check, and one creation
      exactly when that check found it missing; no other index had either.
      (That a creation comes right after its check is what EnsureCalls, in
      the contract of CreateIndexIfNotExists, says.) */
  ghost predicate MemoMatchesTrace(trace: seq<Call>, db: map<string, Entry>) {
    && (forall index :: Occurrences(trace, ExistsCall(index)) == if index in db then 1 else 0)
    && (forall index :: Occurrences(trace, CreateCall(index)) ==
          if index in db && db[index].reply == Missing then 1 else 0)
  }

  /** Ensuring an index not yet memoised keeps memo and trace in agreement. */
  lemma EnsureKeepsMemo(trace: seq<Call>, db: map<string, Entry>, index: string, reply: ExistsReply)
    requires MemoMatchesTrace(trace, db) && index !in db
    ensures MemoMatchesTrace(trace + EnsureCalls(index, reply), db[index := Entry(reply)])
  {
    var calls := EnsureCalls(index, reply);
    var db' := db[index := Entry(reply)];
    forall i
      ensures Occurrences(trace + calls, ExistsCall(i)) == if i in db' then 1 else 0
      ensures Occurrences(trace + calls, CreateCall(i)) == if i in db' && db'[i].reply == Missing then 1 else 0
    {
      OccurrencesAppend(trace, calls, ExistsCall(i));
      OccurrencesAppend(trace, calls, CreateCall(i));
      OccurrencesAppend([ExistsCall(index)], calls[1..], ExistsCall(i));
      OccurrencesAppend([ExistsCall(index)], calls[1..], CreateCall(i));
      assert calls == [ExistsCall(index)] + calls[1..];
      assert [ExistsCall(index)][..0] == [];
      if reply == Missing {
        assert calls[1..][..0] == [];
      }
    }
  }

  /** A call that neither checks nor creates an index keeps memo and trace in
      agreement. */
  lemma OtherCallKeepsMemo(trace: seq<Call>, db: map<string, Entry>, c: Call)
    requires MemoMatchesTrace(trace, db) && !c.ExistsCall? && !c.CreateCall?
    ensures MemoMatchesTrace(trace + [c], db)
  {
    forall i
      ensures Occurrences(trace + [c], ExistsCall(i)) == Occurrences(trace, ExistsCall(i))
      ensures Occurrences(trace + [c], CreateCall(i)) == Occurrences(trace, CreateCall(i))
    {
      assert (trace + [c])[..|trace|] == trace;
    }
  }

  class IndexManager {
    const logsIndexName: string
    const retention: int
    /** `indexesDb`: the memoised ensure operation of every index asked for. */
    var indexesDb: map<string, Entry>
    /** Every client call made so far, in order. */
    ghost var trace: seq<Call>

    /** The memo and the calls made agree (see MemoMatchesTrace). */
    ghost predicate Valid()
      reads this
    {
      MemoMatchesTrace(trace, indexesDb)
    }

    constructor (logsIndexName: string, retention: int)
      ensures Valid()
      ensures this.logsIndexName == logsIndexName && this.retention == retention
      ensures indexesDb == map[] && trace == []
    {
      this.logsIndexName := logsIndexName;
      this.retention := retention;
      indexesDb := map[];
      trace := [];
    }

    /** `createIndexIfNotExists`: the first call for an index checks whether
        it exists, creates it when it is missing, and memoises the outcome;
        every later call returns the memoised entry and calls nothing. */
    method CreateIndexIfNotExists(index: string, reply: ExistsReply) returns (e: Entry)
      requires Valid()
      modifies this
      ensures Valid()
      ensures index in old(indexesDb) ==>
        e == old(indexesDb)[index] && indexesDb == old(indexesDb) && trace == old(trace)
      ensures index !in old(indexesDb) ==>
        && e == Entry(reply)
        && indexesDb == old(indexesDb)[index := e]
        && trace == old(trace) + EnsureCalls(index, reply)
    {
      if index !in indexesDb {
        EnsureKeepsMemo(trace, indexesDb, index, reply);
        trace := trace + EnsureCalls(index, reply);
        indexesDb := indexesDb[index := Entry(reply)];
      }
      e := indexesDb[index];
    }

    /** `indexLog`: a log whose time is after the GC date is written, routed
        by its address, to the index of its UTC day, once that index has been
        ensured; any other log causes no call at all. */
    method IndexLog(log: LogRecord, now: int, reply: ExistsReply)
      requires Valid()
      modifies this
      ensures Valid()
      ensures !Fresh(log, now, retention) ==> indexesDb == old(indexesDb) && trace == old(trace)
      ensures Fresh(log, now, retention) ==>
        var index := IndexNameOf(logsIndexName, log.requestTime.value);
        && indexesDb == (if index in old(indexesDb) then old(indexesDb) else old(indexesDb)[index := Entry(reply)])
        && trace == old(trace)
                    + (if index in old(indexesDb) then [] else EnsureCalls(index, reply))
                    + [IndexCall(index, log.addressValue, log)]
    {
      if Fresh(log, now, retention) {
        EnsureAndWrite(IndexNameOf(logsIndexName, log.requestTime.value), log, reply);
      }
    }

    /** The write of a current log: ensure its index, then index the log
        there, routed by its address. */
    method EnsureAndWrite(index: string, log: LogRecord, reply: ExistsReply)
      requires Valid()
      modifies this
      ensures Valid()
      ensures indexesDb == (if index in old(indexesDb) then old(indexesDb) else old(indexesDb)[index := Entry(reply)])
      ensures trace == old(trace)
                       + (if index in old(indexesDb) then [] else EnsureCalls(index, reply))
                       + [IndexCall(index, log.addressValue, log)]
    {
      var _ := CreateIndexIfNotExists(index, reply);
      OtherCallKeepsMemo(trace, indexesDb, IndexCall(index, log.addressValue, log));
      trace := trace + [IndexCall(index, log.addressValue, log)];
    }

    /** The callback `indexesGc` runs on each listed index: delete it when
        its name contains the base name and its date's local midnight is
        before the GC date. */
    method DeleteIfExpired(index: string, now: int, tzOffsetMs: int)
      requires Valid()
      modifies this
      ensures Valid()
      ensures indexesDb == old(indexesDb)
      ensures trace == old(trace) + DeleteCalls(if Doomed(logsIndexName, index, now, retention, tzOffsetMs) then [index] else [])
    {
      if IndexOf(index, logsIndexName) != -1 {
        var date := IndexDate(logsIndexName, index);
        if date.Some? && LocalMidnightMs(date.value, tzOffsetMs) < GcDate(now, retention) {
          OtherCallKeepsMemo(trace, indexesDb, DeleteCall(index));
          trace := trace + [DeleteCall(index)];
        }
      }
      assert DeleteCalls([index]) == [DeleteCall(index)];
    }

    /** `indexesGc`: list every index, then delete, in listing order, those a
        pass at `now` dooms. The memo keeps its entries, deleted indices
        included. A failed listing deletes nothing. */
    method IndexesGc(listing: Option<seq<string>>, now: int, tzOffsetMs: int)
      requires Valid()
      modifies this
      ensures Valid()
      ensures indexesDb == old(indexesDb)
      ensures trace == old(trace) + [ListCall]
        + if listing.Some? then DeleteCalls(GcVictims(logsIndexName, listing.value, now, retention, tzOffsetMs)) else []
    {
      OtherCallKeepsMemo(trace, indexesDb, ListCall);
      trace := trace + [ListCall];
      if listing.Some? {
        var names := listing.value;
        var i := 0;
        while i < |names|
          invariant 0 <= i <= |names|
          invariant Valid()
          invariant indexesDb == old(indexesDb)
          invariant trace == old(trace) + [ListCall]
            + DeleteCalls(GcVictims(logsIndexName, names[..i], now, retention, tzOffsetMs))
        {
          ghost var done := GcVictims(logsIndexName, names[..i], now, retention, tzOffsetMs);
          PrefixGrows(names, i);
          GcVictimsSnoc(logsIndexName, names[..i], names[i], now, retention, tzOffsetMs);
          DeleteCallsAppend(done, if Doomed(logsIndexName, names[i], now, retention, tzOffsetMs) then [names[i]] else []);
          DeleteIfExpired(names[i], now, tzOffsetMs);
          i := i + 1;
        }
        assert names[..|names|] == names;
      }
    }
  }

  /** A GC pass dooms a generated index exactly when the local midnight of
      its date is before the GC date. */
  lemma GeneratedIndexDoomed(logsIndexName: string, d: Date, now: int, retention: int, tzOffsetMs: int)
    requires ValidDate(d) && 1000 <= d.year <= 9999
    ensures Doomed(logsIndexName, GenerateIndexName(logsIndexName, d), now, retention, tzOffsetMs)
        <==> LocalMidnightMs(d, tzOffsetMs) < GcDate(now, retention)
  {
    var index := GenerateIndexName(logsIndexName, d);
    IndexDateRoundTrip(logsIndexName, d);
    IndexOfFindsContained(index, logsIndexName);
  }

  /** A GC pass over one more listed index: its verdict comes last. */
  lemma GcVictimsSnoc(logsIndexName: string, names: seq<string>, x: string, now: int, retention: int, tzOffsetMs: int)
    ensures GcVictims(logsIndexName, names + [x], now, retention, tzOffsetMs)
         == GcVictims(logsIndexName, names, now, retention, tzOffsetMs)
          + if Doomed(logsIndexName, x, now, retention, tzOffsetMs) then [x] else []
  {
    assert (names + [x])[..|names|] == names;
  }

  /** One GC pass over a listing of three indices. */
  lemma GcVictimsOfThree(logsIndexName: string, a: string, b: string, c: string, now: int, retention: int, tzOffsetMs: int)
    ensures GcVictims(logsIndexName, [a, b, c], now, retention, tzOffsetMs)
         == (if Doomed(logsIndexName, a, now, retention, tzOffsetMs) then [a] else [])
          + (if Doomed(logsIndexName, b, now, retention, tzOffsetMs) then [b] else [])
          + (if Doomed(logsIndexName, c, now, retention, tzOffsetMs) then [c] else [])
  {
    GcVictimsSnoc(logsIndexName, [], a, now, retention, tzOffsetMs);
    GcVictimsSnoc(logsIndexName, [a], b, now, retention, tzOffsetMs);
    GcVictimsSnoc(logsIndexName, [a, b], c, now, retention, tzOffsetMs);
    assert [] + [a] == [a] && [a] + [b] == [a, b] && [a, b] + [c] == [a, b, c];
  }

  /** Local midnights of the days 3, 10 and 40 days before `now`, against
      the GC date of a 30-day retention. */
  lemma GcExampleArithmetic(now: int, tzOffsetMs: int)
    requires -MsPerDay < tzOffsetMs < MsPerDay
    ensures (now / MsPerDay - 3) * MsPerDay - tzOffsetMs >= GcDate(now, 30)
    ensures (now / MsPerDay - 10) * MsPerDay - tzOffsetMs >= GcDate(now, 30)
    ensures (now / MsPerDay - 40) * MsPerDay - tzOffsetMs < GcDate(now, 30)
  {
    var z, r := now / MsPerDay, now % MsPerDay;
    assert now == z * MsPerDay + r && 0 <= r < MsPerDay;
  }

  /** With a retention of 30 days, of the indices of the UTC days 3, 10 and
      40 days before the day of `now`, one GC pass deletes exactly the last,
      whatever the time of day and for any real time-zone offset. */
  lemma GcExample(logsIndexName: string, now: int, tzOffsetMs: int, d3: Date, d10: Date, d40: Date)
    requires -MsPerDay < tzOffsetMs < MsPerDay
    requires ValidDate(d3) && 1000 <= d3.year <= 9999 && DaysFromCivil(d3) == now / MsPerDay - 3
    requires ValidDate(d10) && 1000 <= d10.year <= 9999 && DaysFromCivil(d10) == now / MsPerDay - 10
    requires ValidDate(d40) && 1000 <= d40.year <= 9999 && DaysFromCivil(d40) == now / MsPerDay - 40
    ensures var names := [GenerateIndexName(logsIndexName, d3),
                          GenerateIndexName(logsIndexName, d10),
                          GenerateIndexName(logsIndexName, d40)];
      GcVictims(logsIndexName, names, now, 30, tzOffsetMs) == [names[2]]
  {
    GcExampleArithmetic(now, tzOffsetMs);
    GeneratedIndexDoomed(logsIndexName, d3, now, 30, tzOffsetMs);
    GeneratedIndexDoomed(logsIndexName, d10, now, 30, tzOffsetMs);
    GeneratedIndexDoomed(logsIndexName, d40, now, 30, tzOffsetMs);
    GcVictimsOfThree(logsIndexName, GenerateIndexName(logsIndexName, d3), GenerateIndexName(logsIndexName, d10),
                     GenerateIndexName(logsIndexName, d40), now, 30, tzOffsetMs);
  }

  /** Indexing a log stamped `now` from address `1.2.3.4` into an empty
      backend checks the day's index, creates it, then writes the log routed
      by `1.2.3.4`. */
  method IndexIntoEmptyBackend(logsIndexName: string, retention: int, now: int) returns (m: IndexManager)
    requires 0 < retention
    ensures var index := IndexNameOf(logsIndexName, now);
      && m.indexesDb == map[index := Entry(Missing)]
      && m.trace == [ExistsCall(index), CreateCall(index),
                     IndexCall(index, Some("1.2.3.4"), LogRecord(Some(now), Some("1.2.3.4")))]
  {
    var log := LogRecord(Some(now), Some("1.2.3.4"));
    m := new IndexManager(logsIndexName, retention);
    m.IndexLog(log, now, Missing);
  }

  /** Two fresh logs of the same UTC day share one ensure operation: the
      index is checked and created once, and both logs are written to it. */
  method IndexSameDayTwice(logsIndexName: string, retention: int, now: int, first: LogRecord, second: LogRecord,
                           reply: ExistsReply, laterReply: ExistsReply) returns (m: IndexManager)
    requires Fresh(first, now, retention) && Fresh(second, now, retention)
    requires UtcDateOf(first.requestTime.value) == UtcDateOf(second.requestTime.value)
    ensures var index := IndexNameOf(logsIndexName, first.requestTime.value);
      && m.indexesDb == map[index := Entry(reply)]
      && m.trace == EnsureCalls(index, reply)
                    + [IndexCall(index, first.addressValue, first), IndexCall(index, second.addressValue, second)]
      && Occurrences(m.trace, CreateCall(index)) <= 1
  {
    m := new IndexManager(logsIndexName, retention);
    m.IndexLog(first, now, reply);
    m.IndexLog(second, now, laterReply);
  }

  lemma MidnightBefore(t: int, tzOffsetMs: int)
    requires t % MsPerDay >= 2 && 0 <= tzOffsetMs
    ensures t / MsPerDay * MsPerDay - tzOffsetMs < t - 1
  {
    assert t == t / MsPerDay * MsPerDay + t % MsPerDay;
  }

  /** On a host at or ahead of UTC, a pass whose GC date falls 1 ms before
      `t`, but after the UTC midnight of `t`'s day, dooms the index of that
      day, although logs of that day later than the GC date are still
      written. */
  lemma SameDayDoomed(logsIndexName: string, retention: int, t: int, tzOffsetMs: int)
    requires t % MsPerDay >= 2 && 0 <= tzOffsetMs
    requires 1000 <= UtcDateOf(t).year <= 9999
    ensures GcDate(t - 1 + retention * MsPerDay, retention) == t - 1
    ensures Doomed(logsIndexName, IndexNameOf(logsIndexName, t), t - 1 + retention * MsPerDay, retention, tzOffsetMs)
  {
    var index := IndexNameOf(logsIndexName, t);
    IndexNameTruncatesToDay(logsIndexName, t, tzOffsetMs);
    MidnightBefore(t, tzOffsetMs);
    IndexOfFindsContained(index, logsIndexName);
  }

  /** The memo is never invalidated: when a pass deletes the index of a day
      while a log of that same day, later than the GC date, is still fresh,
      that log is written to the deleted index without re-creating it. */
  method WriteAfterGc(logsIndexName: string, retention: int, t: int, address: Option<string>) returns (m: IndexManager)
    requires 0 < retention && t % MsPerDay >= 2
    requires 1000 <= UtcDateOf(t).year <= 9999
    ensures var index := IndexNameOf(logsIndexName, t);
      var log := LogRecord(Some(t), address);
      && m.trace == [ExistsCall(index), CreateCall(index), IndexCall(index, address, log),
                     ListCall, DeleteCall(index), IndexCall(index, address, log)]
  {
    var log := LogRecord(Some(t), address);
    var index := IndexNameOf(logsIndexName, t);
    m := new IndexManager(logsIndexName, retention);
    m.IndexLog(log, t, Missing);
    assert m.trace == [ExistsCall(index), CreateCall(index), IndexCall(index, address, log)];
    GcThenWrite(m, t, address);
  }

  /** The pass of WriteAfterGc: with the GC date 1 ms before `t`, the
      index of `t`'s day, alone in the listing, is deleted. */
  method GcDeletesDay(m: IndexManager, t: int)
    requires m.Valid() && t % MsPerDay >= 2
    requires 1000 <= UtcDateOf(t).year <= 9999
    modifies m
    ensures m.Valid() && m.indexesDb == old(m.indexesDb)
    ensures m.trace == old(m.trace) + [ListCall, DeleteCall(IndexNameOf(m.logsIndexName, t))]
  {
    var index := IndexNameOf(m.logsIndexName, t);
    var later := t - 1 + m.retention * MsPerDay;
    SameDayDoomed(m.logsIndexName, m.retention, t, 0);
    assert [index][..0] == [];
    assert GcVictims(m.logsIndexName, [index], later, m.retention, 0) == [index];
    m.IndexesGc(Some([index]), later, 0);
    assert DeleteCalls([index]) == [DeleteCall(index)];
  }

  /** The late write of WriteAfterGc: the memo still holds the day's index,
      so the log is written without any ensure call. */
  method WriteMemoised(m: IndexManager, log: LogRecord, now: int)
    requires m.Valid() && Fresh(log, now, m.retention)
    requires IndexNameOf(m.logsIndexName, log.requestTime.value) in m.indexesDb
    modifies m
    ensures m.trace == old(m.trace) + [IndexCall(IndexNameOf(m.logsIndexName, log.requestTime.value), log.addressValue, log)]
  {
    m.IndexLog(log, now, Missing);
  }

  /** The second half of WriteAfterGc: the pass deleting the day's index,
      then the late write. */
  method GcThenWrite(m: IndexManager, t: int, address: Option<string>)
    requires m.Valid() && t % MsPerDay >= 2
    requires 1000 <= UtcDateOf(t).year <= 9999
    requires var index := IndexNameOf(m.logsIndexName, t);
      && m.indexesDb == map[index := Entry(Missing)]
      && m.trace == [ExistsCall(index), CreateCall(index), IndexCall(index, address, LogRecord(Some(t), address))]
    modifies m
    ensures var index := IndexNameOf(m.logsIndexName, t);
      var log := LogRecord(Some(t), address);
      && m.trace == [ExistsCall(index), CreateCall(index), IndexCall(index, address, log),
                     ListCall, DeleteCall(index), IndexCall(index, address, log)]
  {
    var log := LogRecord(Some(t), address);
    var later := t - 1 + m.retention * MsPerDay;
    assert GcDate(later, m.retention) == t - 1;
    GcDeletesDay(m, t);
    WriteMemoised(m, log, later);
  }
}
