/** The query translator of the Elasticsearch plugin: how a query of the
    API (time range, filters, limit, aggregation) becomes the body of an
    Elasticsearch search, and what that search selects. */
module QueryTranslator {
  import opened Wrappers
  import opened QueryDsl

  /** The `type` the plugin searches for: logs, or one of the two session
      kinds. */
  datatype EntityType = Log | Robot | Address

  function TypeName(t: EntityType): string {
    match t
    case Log => "log"
    case Robot => "robot"
    case Address => "address"
  }

  /** One entry of the filter registry for a type: a field id and whether it
      is matched as full text. */
  datatype FilterDef = FilterDef(id: string, fullText: bool)

  /** The value of one key of `query.filter`. */
  datatype Clause = Clause(negative: bool, values: seq<string>)

  /** The query object `search` receives. Each field is `None` when its key is
      absent; `filter` keeps the order of its keys; `extra` holds every other
      top-level key (such as `identity.type` of the robot session constants). */
  datatype QuerySpec = QuerySpec(
    start: Option<int>,
    end: Option<int>,
    limit: Option<int>,
    aggs: Option<Aggs>,
    filter: Option<seq<(string, Clause)>>,
    extra: map<string, string>)

  const EmptyQuery := QuerySpec(None, None, None, None, None, map[])

  /** JavaScript truthiness of a number that may be absent: 0 is false. */
  predicate Truthy(n: Option<int>) {
    n.Some? && n.value != 0
  }

  // ASCII case mapping (letters outside ASCII are left as they are).

  function ToLower(c: char): char {
    if 'A' <= c <= 'Z' then (c as int + 32) as char else c
  }

  function ToUpper(c: char): char {
    if 'a' <= c <= 'z' then (c as int - 32) as char else c
  }

  /** `getChar` of `caseInsentivizeRegexpValue`. */
  function CharPattern(c: char): string {
    var lower, upper := ToLower(c), ToUpper(c);
    if lower != upper then ['[', lower, upper, ']'] else [c]
  }

  /** `caseInsentivizeRegexpValue`: every character whose lower and upper
      case differ becomes the class `[lu]`, every other one stays. */
  function CaseInsensitivize(v: string): (p: string)
    ensures |p| >= |v|
    ensures (forall k :: 0 <= k < |v| ==> ToLower(v[k]) == ToUpper(v[k])) ==> p == v
  {
    if v == [] then [] else CharPattern(v[0]) + CaseInsensitivize(v[1..])
  }

  /** Every letter becomes a two-case class, every other character stays:
      `Ab-1` becomes `[aA][bB]-1`. */
  lemma CaseInsensitivizeExample()
    ensures CaseInsensitivize("Ab-1") == "[aA][bB]-1"
  {
    assert CharPattern('A') == "[aA]" && CharPattern('b') == "[bB]";
    assert CharPattern('-') == "-" && CharPattern('1') == "1";
    assert "Ab-1"[1..] == "b-1" && "b-1"[1..] == "-1" && "-1"[1..] == "1" && "1"[1..] == [];
  }

  /** Two strings of one length that differ at most in ASCII letter case. */
  predicate SameIgnoringCase(a: string, b: string) {
    |a| == |b| && forall k :: 0 <= k < |a| ==> ToLower(a[k]) == ToLower(b[k])
  }

  /** `v` occurs in `t` when ASCII letter case is ignored. */
  predicate ContainsIgnoringCase(t: string, v: string) {
    exists i :: 0 <= i <= |t| - |v| && OccursIgnoringCaseAt(t, v, i)
  }

  predicate OccursIgnoringCaseAt(t: string, v: string, i: int) {
    0 <= i <= |t| - |v| && SameIgnoringCase(t[i..i + |v|], v)
  }

  predicate NoRegexpMeta(v: string) {
    forall k :: 0 <= k < |v| ==> v[k] !in RegexpMeta
  }

  /** The pattern of one character matches exactly the characters equal to it
      up to case. */
  lemma CharPatternMatch(c: char, rest: string, t: string)
    requires c !in RegexpMeta
    ensures RegexpMatch(CharPattern(c) + rest, t) <==>
      t != [] && ToLower(t[0]) == ToLower(c) && RegexpMatch(rest, t[1..])
  {
    var p := CharPattern(c) + rest;
    if ToLower(c) != ToUpper(c) {
      assert p[4..] == rest;
    } else {
      assert p[1..] == rest;
    }
  }

  /** The case-insensitive pattern of `v` consumes exactly a prefix of the
      term that equals `v` up to case. */
  lemma {:induction false} CaseInsensitivizeMatch(v: string, rest: string, t: string)
    requires NoRegexpMeta(v)
    ensures RegexpMatch(CaseInsensitivize(v) + rest, t) <==>
      |v| <= |t| && SameIgnoringCase(t[..|v|], v) && RegexpMatch(rest, t[|v|..])
  {
    if v == [] {
      assert CaseInsensitivize(v) + rest == rest;
      assert t[..0] == [] && t[0..] == t;
    } else {
      assert CaseInsensitivize(v) + rest == CharPattern(v[0]) + (CaseInsensitivize(v[1..]) + rest);
      CharPatternMatch(v[0], CaseInsensitivize(v[1..]) + rest, t);
      if t != [] {
        CaseInsensitivizeMatch(v[1..], rest, t[1..]);
        if |v| <= |t| {
          assert t[1..][|v| - 1..] == t[|v|..];
          assert t[1..][..|v| - 1] == t[..|v|][1..];
          assert SameIgnoringCase(t[..|v|], v) <==>
            ToLower(t[0]) == ToLower(v[0]) && SameIgnoringCase(t[..|v|][1..], v[1..]);
        }
      }
    }
  }

  /** The pattern the plugin writes for a full-text value, `.*v'.*`, matches
      a term exactly when the value occurs in it up to case. */
  lemma FullTextPatternMeaning(v: string, t: string)
    requires NoRegexpMeta(v)
    ensures RegexpMatch(".*" + CaseInsensitivize(v) + ".*", t) <==> ContainsIgnoringCase(t, v)
  {
    assert ".*" + CaseInsensitivize(v) + ".*" == ".*" + (CaseInsensitivize(v) + ".*");
    LeadingAny(CaseInsensitivize(v) + ".*", t);
    forall i | 0 <= i <= |t|
      ensures RegexpMatch(CaseInsensitivize(v) + ".*", t[i..]) <==> OccursIgnoringCaseAt(t, v, i)
    {
      CaseInsensitivizeMatch(v, ".*", t[i..]);
      if i <= |t| - |v| {
        AnyMatchesAll(t[i..][|v|..]);
        assert t[i..][..|v|] == t[i..i + |v|];
      }
    }
  }

  /** `prefixIfNeeded`: registry ids of a session type are qualified with
      the type name. */
  function PrefixIfNeeded(id: string, t: EntityType): (prefixed: string)
    ensures |prefixed| >= |id| && prefixed[|prefixed| - |id|..] == id
    ensures prefixed == id <==> t == Log
  {
    if t == Log then id else TypeName(t) + "." + id
  }

  /** Distinct registry ids stay distinct once prefixed, so `find` by the
      prefixed id is `find` by the registry id. */
  lemma PrefixIfNeededInjective(a: string, b: string, t: EntityType)
    ensures PrefixIfNeeded(a, t) == PrefixIfNeeded(b, t) ==> a == b
  {
  }

  /** Entry `k` is the first registry entry whose prefixed id is `id`. */
  predicate FirstMatchAt(registry: seq<FilterDef>, t: EntityType, id: string, k: int) {
    0 <= k < |registry| && PrefixIfNeeded(registry[k].id, t) == id
    && forall j :: 0 <= j < k ==> PrefixIfNeeded(registry[j].id, t) != id
  }

  /** The position `filters[type].find(...)` stops at, or -1. */
  function FindFilterIndex(registry: seq<FilterDef>, t: EntityType, id: string): (k: int)
    ensures -1 <= k < |registry|
    ensures k == -1 <==> forall j :: 0 <= j < |registry| ==> PrefixIfNeeded(registry[j].id, t) != id
    ensures k != -1 ==> FirstMatchAt(registry, t, id, k)
  {
    if registry == [] then -1
    else if PrefixIfNeeded(registry[0].id, t) == id then 0
    else
      var k := FindFilterIndex(registry[1..], t, id);
      if k == -1 then -1 else k + 1
  }

  /** The field `id` is registered for the type as a full-text field: its
      first registry entry says so. */
  predicate IsFullTextField(registry: seq<FilterDef>, t: EntityType, id: string) {
    exists k :: 0 <= k < |registry| && FirstMatchAt(registry, t, id, k) && registry[k].fullText
  }

  /** `getESValue`: a case-insensitive substring `regexp` on a full-text
      field, an exact `match` on any other. */
  function GetESValue(registry: seq<FilterDef>, t: EntityType, id: string, value: string): (c: Condition)
    ensures c == if IsFullTextField(registry, t, id)
                 then Regexp(id, ".*" + CaseInsensitivize(value) + ".*")
                 else Match(id, value)
  {
    var k := FindFilterIndex(registry, t, id);
    if k != -1 && registry[k].fullText then Regexp(id, ".*" + CaseInsensitivize(value) + ".*")
    else Match(id, value)
  }

  /** The condition of one filter key: the bare condition of a single value,
      otherwise a `should` of the conditions of all values in order; wrapped
      in `must_not` when the clause is negative. */
  function ClauseCondition(registry: seq<FilterDef>, t: EntityType, id: string, c: Clause): (cond: Condition)
    ensures c.values == [] ==> forall doc :: Eval(cond, doc) == !c.negative
  {
    var cond := AnyValueCondition(registry, t, id, c.values);
    if c.negative then MustNot(cond) else cond
  }

  /** The condition that one of `values` holds: the bare condition of a
      single value, otherwise a `should` of all of them in order. */
  function AnyValueCondition(registry: seq<FilterDef>, t: EntityType, id: string, values: seq<string>): Condition {
    if |values| == 1 then GetESValue(registry, t, id, values[0])
    else Should(seq(|values|, k requires 0 <= k < |values| => GetESValue(registry, t, id, values[k])))
  }

  /** `bool.must`: one condition per filter key, in key order. */
  function MustConditions(registry: seq<FilterDef>, t: EntityType, filter: seq<(string, Clause)>): seq<Condition> {
    seq(|filter|, k requires 0 <= k < |filter| => ClauseCondition(registry, t, filter[k].0, filter[k].1))
  }

  /** `bool.filter`: the identity must exist; a `request.time` range follows
      when `start` or `end` is truthy, bounded by exactly those of the two. */
  function FilterConditions(start: Option<int>, end: Option<int>): seq<Condition> {
    [Exists("identity.id")]
    + if Truthy(start) || Truthy(end)
      then [Range("request.time", if Truthy(start) then start else None, if Truthy(end) then end else None)]
      else []
  }

  /** The request `search` sends: it reads `start`, `end`, `limit`, `aggs`
      and `filter` of the query and nothing else. */
  function BuildRequest(logsIndexName: string, registry: seq<FilterDef>, t: EntityType, q: QuerySpec): (r: SearchRequest)
    ensures forall doc: Doc :: "identity.id" !in doc.fields ==> !EvalBool(r.body.query, doc)
    ensures forall doc: Doc :: Truthy(q.start) && doc.time < q.start.value ==> !EvalBool(r.body.query, doc)
    ensures forall doc: Doc :: Truthy(q.end) && q.end.value < doc.time ==> !EvalBool(r.body.query, doc)
  {
    var must := if q.filter.Some? then Some(MustConditions(registry, t, q.filter.value)) else None;
    var filter := FilterConditions(q.start, q.end);
    assert filter[0] == Exists("identity.id");
    assert Truthy(q.start) || Truthy(q.end) ==> filter[1].Range?;
    var body := Body([Descending("request.time")], BoolQuery(filter, must), q.aggs);
    SearchRequest(logsIndexName + "-*", "log", body, q.limit)
  }

  /** The shape of every request: descending `request.time` sort, the
      identity check first, a range only for a truthy `start` or `end` with
      exactly the bounds given, `aggs` only when given, all daily indices,
      `size` from `limit`, and one `must` entry per filter key in key order. */
  lemma RequestShape(logsIndexName: string, registry: seq<FilterDef>, t: EntityType, q: QuerySpec)
    ensures var r := BuildRequest(logsIndexName, registry, t, q);
      && r.index == logsIndexName + "-*"
      && r.size == q.limit
      && r.body.sort == [Descending("request.time")]
      && r.body.aggs == q.aggs
      && r.body.query.filter[0] == Exists("identity.id")
      && |r.body.query.filter| == (if Truthy(q.start) || Truthy(q.end) then 2 else 1)
      && (|r.body.query.filter| == 2 ==>
            r.body.query.filter[1].Range? && r.body.query.filter[1].field == "request.time"
            && (r.body.query.filter[1].gte.Some? <==> Truthy(q.start))
            && (r.body.query.filter[1].lte.Some? <==> Truthy(q.end))
            && (Truthy(q.start) ==> r.body.query.filter[1].gte == q.start)
            && (Truthy(q.end) ==> r.body.query.filter[1].lte == q.end))
      && (r.body.query.must.Some? <==> q.filter.Some?)
      && (q.filter.Some? ==> |r.body.query.must.value| == |q.filter.value|)
      && (q.filter.Some? ==> forall k :: 0 <= k < |q.filter.value| ==>
            r.body.query.must.value[k] == ClauseCondition(registry, t, q.filter.value[k].0, q.filter.value[k].1))
  {
  }

  /** A clause with one value gives that value's condition, with several a
      `should` of them in value order; `negative` wraps it in `must_not`. */
  lemma ClauseShape(registry: seq<FilterDef>, t: EntityType, id: string, c: Clause)
    ensures var cond := ClauseCondition(registry, t, id, c);
      var inner := if c.negative then cond.negated else cond;
      && (c.negative <==> cond.MustNot?)
      && (|c.values| == 1 ==> inner == GetESValue(registry, t, id, c.values[0]))
      && (|c.values| != 1 ==>
            && inner.Should? && |inner.options| == |c.values|
            && forall k :: 0 <= k < |c.values| ==> inner.options[k] == GetESValue(registry, t, id, c.values[k]))
  {
    var cond := ClauseCondition(registry, t, id, c);
    if c.negative {
      assert cond.MustNot?;
    } else if |c.values| == 1 {
      var v := GetESValue(registry, t, id, c.values[0]);
      assert !v.MustNot?;
    }
  }

  // What a query means, stated without the query DSL.

  /** A document satisfies one value of a clause: it holds the value (up to
      case, anywhere in the field) for a full-text field, or exactly. */
  predicate ValueHolds(registry: seq<FilterDef>, t: EntityType, id: string, v: string, doc: Doc) {
    id in doc.fields
    && if IsFullTextField(registry, t, id) then ContainsIgnoringCase(doc.fields[id], v) else doc.fields[id] == v
  }

  /** A clause holds when some value holds, or, for a negative clause, when
      none does. */
  predicate ClauseHolds(registry: seq<FilterDef>, t: EntityType, id: string, c: Clause, doc: Doc) {
    (exists k :: 0 <= k < |c.values| && ValueHolds(registry, t, id, c.values[k], doc)) != c.negative
  }

  /** The documents a query is after: they have an identity, lie in the
      given time bounds, and satisfy every filter clause. */
  predicate Selects(registry: seq<FilterDef>, t: EntityType, q: QuerySpec, doc: Doc) {
    && "identity.id" in doc.fields
    && (Truthy(q.start) ==> q.start.value <= doc.time)
    && (Truthy(q.end) ==> doc.time <= q.end.value)
    && (q.filter.Some? ==> forall k :: 0 <= k < |q.filter.value| ==>
          ClauseHolds(registry, t, q.filter.value[k].0, q.filter.value[k].1, doc))
  }

  /** A clause the DSL can express as the source means it: it has a value,
      and full-text values contain no regular-expression syntax. */
  predicate Translatable(registry: seq<FilterDef>, t: EntityType, id: string, c: Clause) {
    |c.values| >= 1 && (IsFullTextField(registry, t, id) ==> forall k :: 0 <= k < |c.values| ==> NoRegexpMeta(c.values[k]))
  }

  lemma ValueMeaning(registry: seq<FilterDef>, t: EntityType, id: string, v: string, doc: Doc)
    requires IsFullTextField(registry, t, id) ==> NoRegexpMeta(v)
    ensures Eval(GetESValue(registry, t, id, v), doc) <==> ValueHolds(registry, t, id, v, doc)
  {
    if IsFullTextField(registry, t, id) && id in doc.fields {
      FullTextPatternMeaning(v, doc.fields[id]);
    }
  }

  /** The condition of the values of a clause holds exactly when one of
      them does. */
  lemma AnyValueMeaning(registry: seq<FilterDef>, t: EntityType, id: string, values: seq<string>, doc: Doc)
    requires |values| >= 1
    requires IsFullTextField(registry, t, id) ==> forall k :: 0 <= k < |values| ==> NoRegexpMeta(values[k])
    ensures Eval(AnyValueCondition(registry, t, id, values), doc)
        <==> exists k :: 0 <= k < |values| && ValueHolds(registry, t, id, values[k], doc)
  {
    var any := AnyValueCondition(registry, t, id, values);
    if |values| == 1 {
      ValueMeaning(registry, t, id, values[0], doc);
    } else {
      if Eval(any, doc) {
        var k :| 0 <= k < |any.options| && Eval(any.options[k], doc);
        ValueMeaning(registry, t, id, values[k], doc);
      }
      if exists k :: 0 <= k < |values| && ValueHolds(registry, t, id, values[k], doc) {
        var k :| 0 <= k < |values| && ValueHolds(registry, t, id, values[k], doc);
        ValueMeaning(registry, t, id, values[k], doc);
        assert any.options[k] == GetESValue(registry, t, id, values[k]);
      }
    }
  }

  /** The condition of a clause holds exactly when the clause does. */
  lemma ClauseMeaning(registry: seq<FilterDef>, t: EntityType, id: string, c: Clause, doc: Doc)
    requires Translatable(registry, t, id, c)
    ensures Eval(ClauseCondition(registry, t, id, c), doc) <==> ClauseHolds(registry, t, id, c, doc)
  {
    AnyValueMeaning(registry, t, id, c.values, doc);
  }

  /** The search a query is translated to selects exactly the documents the
      query is after. */
  lemma RequestMeaning(logsIndexName: string, registry: seq<FilterDef>, t: EntityType, q: QuerySpec, doc: Doc)
    requires q.filter.Some? ==> forall k :: 0 <= k < |q.filter.value| ==>
      Translatable(registry, t, q.filter.value[k].0, q.filter.value[k].1)
    ensures EvalBool(BuildRequest(logsIndexName, registry, t, q).body.query, doc) <==> Selects(registry, t, q, doc)
  {
    if q.filter.Some? {
      var f := q.filter.value;
      var must := MustConditions(registry, t, f);
      forall k | 0 <= k < |f|
        ensures Eval(must[k], doc) <==> ClauseHolds(registry, t, f[k].0, f[k].1, doc)
      {
        ClauseMeaning(registry, t, f[k].0, f[k].1, doc);
      }
    }
    var filter := FilterConditions(q.start, q.end);
    assert Eval(filter[0], doc) <==> "identity.id" in doc.fields;
    if |filter| == 2 {
      assert Eval(filter[1], doc) <==>
        (Truthy(q.start) ==> q.start.value <= doc.time) && (Truthy(q.end) ==> doc.time <= q.end.value);
    }
    assert AllHold(filter, doc) <==>
      "identity.id" in doc.fields
      && (Truthy(q.start) ==> q.start.value <= doc.time) && (Truthy(q.end) ==> doc.time <= q.end.value);
  }
}
