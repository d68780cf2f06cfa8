/** Log and session search of the Elasticsearch plugin: the query a session
    search sends, and how its answer is shaped into the result. */
module SessionSearch {
  import opened Wrappers
  import opened QueryDsl
  import opened QueryTranslator

  /** The parameters `searchSessions` is built with: the field sessions are
      grouped by, the entity type searched, and the constant query keys. */
  datatype SessionsConfig = SessionsConfig(sessionId: string, kind: EntityType, queryConstants: QuerySpec)

  /** `searchRobots`: the constant `identity.type` is a top-level key of the
      query object, not a filter. */
  const Robots := SessionsConfig("robot.id", Robot, EmptyQuery.(extra := map["identity.type" := "robot"]))

  /** `searchAddresses`: no constants. */
  const Addresses := SessionsConfig("address.value", Address, EmptyQuery)

  /** `Object.assign({}, a, b)` on query objects: every key `b` has replaces
      the one of `a`. */
  function Assign(a: QuerySpec, b: QuerySpec): QuerySpec {
    QuerySpec(
      if b.start.Some? then b.start else a.start,
      if b.end.Some? then b.end else a.end,
      if b.limit.Some? then b.limit else a.limit,
      if b.aggs.Some? then b.aggs else a.aggs,
      if b.filter.Some? then b.filter else a.filter,
      a.extra + b.extra)
  }

  /** The bucket count a session search asks for: `query.limit || 50`. */
  function TermsSize(q: QuerySpec): int {
    if Truthy(q.limit) then q.limit.value else 50
  }

  /** The defaults of a session search: the `sessions` terms aggregation and
      no hits (`limit: 0`). */
  function SessionDefaults(cfg: SessionsConfig, q: QuerySpec): QuerySpec {
    EmptyQuery.(aggs := Some(SessionsTerms(cfg.sessionId, TermsSize(q))), limit := Some(0))
  }

  /** The query a session search passes to `search`: it always asks for an
      aggregation and sets a size. */
  function SessionsQuery(cfg: SessionsConfig, q: QuerySpec): (r: QuerySpec)
    ensures r.aggs.Some? && r.limit.Some?
  {
    Assign(Assign(SessionDefaults(cfg, q), cfg.queryConstants), q)
  }

  function SessionsRequest(logsIndexName: string, registry: seq<FilterDef>, cfg: SessionsConfig, q: QuerySpec): SearchRequest {
    BuildRequest(logsIndexName, registry, cfg.kind, SessionsQuery(cfg, q))
  }

  /** Precedence of a session query: each key comes from the caller's query
      if it has it, else from the constants, else from the defaults. */
  lemma SessionsQueryPrecedence(cfg: SessionsConfig, q: QuerySpec)
    ensures var r := SessionsQuery(cfg, q);
      var c := cfg.queryConstants;
      && r.limit == (if q.limit.Some? then q.limit else if c.limit.Some? then c.limit else Some(0))
      && r.aggs == (if q.aggs.Some? then q.aggs else if c.aggs.Some? then c.aggs
                    else Some(SessionsTerms(cfg.sessionId, if Truthy(q.limit) then q.limit.value else 50)))
      && r.start == (if q.start.Some? then q.start else c.start)
      && r.end == (if q.end.Some? then q.end else c.end)
      && r.filter == (if q.filter.Some? then q.filter else c.filter)
      && (forall key :: key in q.extra ==> key in r.extra && r.extra[key] == q.extra[key])
      && (forall key :: key in c.extra && key !in q.extra ==> key in r.extra && r.extra[key] == c.extra[key])
      && r.extra.Keys == c.extra.Keys + q.extra.Keys
  {
  }

  /** The robot constant never reaches the search: a robot session search
      sends the same request as one without constants. */
  lemma RobotConstantNotSent(logsIndexName: string, registry: seq<FilterDef>, q: QuerySpec)
    ensures SessionsRequest(logsIndexName, registry, Robots, q)
         == SessionsRequest(logsIndexName, registry, Robots.(queryConstants := EmptyQuery), q)
  {
  }

  /** So a robot session search also counts documents of other identity
      types: with an empty query, a document whose `identity.type` is
      `browser` satisfies the query sent. */
  lemma RobotSearchAdmitsOtherTypes(logsIndexName: string, registry: seq<FilterDef>)
    ensures var doc := Doc(map["identity.id" := "x", "identity.type" := "browser"], 0);
      EvalBool(SessionsRequest(logsIndexName, registry, Robots, EmptyQuery).body.query, doc)
  {
    var doc := Doc(map["identity.id" := "x", "identity.type" := "browser"], 0);
    RequestMeaning(logsIndexName, registry, Robot, SessionsQuery(Robots, EmptyQuery), doc);
  }

  /** One bucket of the `sessions` aggregation. */
  datatype Bucket = Bucket(key: string, docCount: int)

  /** `{ id, count }` of a bucket. */
  datatype SessionRef = SessionRef(id: string, count: int)

  /** A JSON scalar of identity data. */
  datatype Field = Num(n: int) | Str(s: string)

  type Record = map<string, Field>

  /** Buckets to `{ id: key, count: doc_count }`, in bucket order. */
  function BucketsToSessions(buckets: seq<Bucket>): (sessions: seq<SessionRef>)
    ensures |sessions| == |buckets|
    ensures forall k :: 0 <= k < |buckets| ==> sessions[k] == SessionRef(buckets[k].key, buckets[k].docCount)
  {
    if buckets == [] then [] else [SessionRef(buckets[0].key, buckets[0].docCount)] + BucketsToSessions(buckets[1..])
  }

  /** `Promise.all` over the lookups, done one after the other: all results
      in order, or nothing when any lookup fails. */
  function FetchAll(ids: seq<string>, fetch: string -> Option<Record>): (r: Option<seq<Record>>)
    ensures r.Some? <==> forall k :: 0 <= k < |ids| ==> fetch(ids[k]).Some?
    ensures r.Some? ==> |r.value| == |ids| && forall k :: 0 <= k < |ids| ==> r.value[k] == fetch(ids[k]).value
  {
    if ids == [] then Some([])
    else match fetch(ids[0])
      case None => None
      case Some(first) =>
        match FetchAll(ids[1..], fetch)
        case None => None
        case Some(rest) => Some([first] + rest)
  }

  /** `Object.assign({ count }, data)`: the identity data, over the count. */
  function WithCount(count: int, data: Record): Record {
    map["count" := Num(count)] + data
  }

  /** The session list: the i-th entry is the i-th session's identity data
      merged over its count. */
  function MergeSessions(sessions: seq<SessionRef>, data: seq<Record>): seq<Record>
    requires |data| == |sessions|
  {
    seq(|sessions|, k requires 0 <= k < |sessions| => WithCount(sessions[k].count, data[k]))
  }

  /** The result of a session search given the buckets of its answer and the
      identity lookup of its kind. */
  function SessionsResult(buckets: seq<Bucket>, fetch: string -> Option<Record>): (r: Option<seq<Record>>)
    ensures r.Some? ==> |r.value| == |buckets|
  {
    var sessions := BucketsToSessions(buckets);
    var ids := seq(|sessions|, k requires 0 <= k < |sessions| => sessions[k].id);
    match FetchAll(ids, fetch)
    case None => None
    case Some(data) => Some(MergeSessions(sessions, data))
  }

  /** A session search fails exactly when some lookup fails; otherwise it
      keeps the buckets' length and order, and each entry holds its bucket's
      count overlaid with that bucket's identity data. */
  lemma SessionsResultShape(buckets: seq<Bucket>, fetch: string -> Option<Record>)
    ensures var r := SessionsResult(buckets, fetch);
      && (r.Some? <==> forall k :: 0 <= k < |buckets| ==> fetch(buckets[k].key).Some?)
      && (r.Some? ==>
            && |r.value| == |buckets|
            && forall k :: 0 <= k < |buckets| ==>
                 var data := fetch(buckets[k].key).value;
                 && r.value[k].Keys == data.Keys + {"count"}
                 && (forall f :: f in data ==> r.value[k][f] == data[f])
                 && ("count" !in data ==> r.value[k]["count"] == Num(buckets[k].docCount)))
  {
    var sessions := BucketsToSessions(buckets);
    var ids := seq(|sessions|, k requires 0 <= k < |sessions| => sessions[k].id);
    assert forall k :: 0 <= k < |buckets| ==> ids[k] == buckets[k].key;
  }

  /** The lookup of the example below. */
  function ExampleLookup(id: string): Option<Record> {
    if id == "x" then Some(map["name" := Str("X")])
    else if id == "y" then Some(map["name" := Str("Y")])
    else None
  }

  /** Two buckets `x` (5 documents) and `y` (2) whose lookups give names `X`
      and `Y` become `[{count: 5, name: X}, {count: 2, name: Y}]`. */
  lemma SessionsResultExample()
    ensures SessionsResult([Bucket("x", 5), Bucket("y", 2)], ExampleLookup)
         == Some([map["count" := Num(5), "name" := Str("X")], map["count" := Num(2), "name" := Str("Y")]])
  {
    var buckets := [Bucket("x", 5), Bucket("y", 2)];
    SessionsResultShape(buckets, ExampleLookup);
    assert ExampleLookup("x") == Some(map["name" := Str("X")]);
    assert ExampleLookup("y") == Some(map["name" := Str("Y")]);
    var r := SessionsResult(buckets, ExampleLookup).value;
    assert |r| == 2;
    assert r[0] == map["count" := Num(5), "name" := Str("X")];
    assert r[1] == map["count" := Num(2), "name" := Str("Y")];
    assert r == [r[0], r[1]];
  }

  /** One hit of a search answer. */
  datatype Hit = Hit(source: Doc)

  /** The part of a search answer log search reads: `hits.hits`, absent
      when the answer has no `hits`. */
  datatype SearchAnswer = SearchAnswer(hits: Option<seq<Hit>>)

  /** The `_source` of every hit, in hit order. */
  function Sources(hits: seq<Hit>): (docs: seq<Doc>)
    ensures |docs| == |hits|
    ensures forall k :: 0 <= k < |hits| ==> docs[k] == hits[k].source
  {
    if hits == [] then [] else [hits[0].source] + Sources(hits[1..])
  }

  /** `searchLogs`: the `_source` of every hit, in hit order, or no logs
      when the answer has no hits. */
  function LogsResult(answer: SearchAnswer): (logs: seq<Doc>)
    ensures answer.hits.None? ==> logs == []
    ensures answer.hits.Some? ==>
      |logs| == |answer.hits.value| && forall k :: 0 <= k < |logs| ==> logs[k] == answer.hits.value[k].source
  {
    match answer.hits
    case None => []
    case Some(hits) => Sources(hits)
  }

  /** The request `searchLogs` sends: the caller's query, over logs. */
  function LogsRequest(logsIndexName: string, registry: seq<FilterDef>, q: QuerySpec): (r: SearchRequest)
    ensures r.size == q.limit && r.body.aggs == q.aggs
  {
    BuildRequest(logsIndexName, registry, Log, q)
  }
}
