/** The part of the Elasticsearch query DSL the plugin emits, and what each
    query means for a document. */
module QueryDsl {
  import opened Wrappers

  /** One query clause. */
  datatype Condition =
    | Match(field: string, value: string)                      // { match: { [field]: value } }
    | Regexp(field: string, pattern: string)                   // { regexp: { [field]: pattern } }
    | Should(options: seq<Condition>)                          // { bool: { should: options } }
    | MustNot(negated: Condition)                              // { bool: { must_not: negated } }
    | Exists(field: string)                                    // { exists: { field } }
    | Range(field: string, gte: Option<int>, lte: Option<int>) // { range: { [field]: { gte?, lte? } } }

  /** The top-level `bool` of a search: every `filter` clause and, when the
      `must` key is present, every `must` clause has to hold. */
  datatype BoolQuery = BoolQuery(filter: seq<Condition>, must: Option<seq<Condition>>)

  datatype SortKey = Descending(field: string)

  /** `{ sessions: { terms: { field, size } } }`, the aggregation session
      search asks for. */
  datatype Aggs = SessionsTerms(field: string, size: int)

  datatype Body = Body(sort: seq<SortKey>, query: BoolQuery, aggs: Option<Aggs>)

  /** The argument of `client.search`. */
  datatype SearchRequest = SearchRequest(index: string, docType: string, body: Body, size: Option<int>)

  /** A stored log document: its flattened field paths and its `request.time`
      in milliseconds (the only field ranges are built over). */
  datatype Doc = Doc(fields: map<string, string>, time: int)

  /** The characters Lucene's regular-expression syntax gives a meaning to. */
  const RegexpMeta: set<char> :=
    {'.', '?', '+', '*', '|', '{', '}', '[', ']', '(', ')', '"', '\\', '#', '@', '&', '<', '>', '~'}

  /** Whole-term match of a Lucene regular expression, for the constructs the
      plugin writes: `.*`, a two-character class `[xy]`, and literal
      characters. A pattern using any other construct is outside this model
      and matches nothing here. */
  predicate RegexpMatch(p: string, t: string)
    decreases |p| + |t|
  {
    if p == [] then t == []
    else if |p| >= 2 && p[0] == '.' && p[1] == '*' then
      RegexpMatch(p[2..], t) || (t != [] && RegexpMatch(p, t[1..]))
    else if |p| >= 4 && p[0] == '[' && p[3] == ']' && p[1] !in RegexpMeta && p[2] !in RegexpMeta then
      t != [] && (t[0] == p[1] || t[0] == p[2]) && RegexpMatch(p[4..], t[1..])
    else if p[0] in RegexpMeta then false
    else t != [] && t[0] == p[0] && RegexpMatch(p[1..], t[1..])
  }

  /** Whether a document satisfies a clause. A `bool` holding only `should`
      clauses needs one of them to hold, and matches everything when it has
      none; `match` is taken as exact equality (keyword fields). */
  predicate Eval(c: Condition, doc: Doc) {
    match c
    case Match(f, v) => f in doc.fields && doc.fields[f] == v
    case Regexp(f, p) => f in doc.fields && RegexpMatch(p, doc.fields[f])
    case Should(cs) => |cs| == 0 || exists k :: 0 <= k < |cs| && Eval(cs[k], doc)
    case MustNot(n) => !Eval(n, doc)
    case Exists(f) => f in doc.fields
    case Range(_, lo, hi) => (lo.None? || lo.value <= doc.time) && (hi.None? || doc.time <= hi.value)
  }

  predicate AllHold(cs: seq<Condition>, doc: Doc) {
    forall k :: 0 <= k < |cs| ==> Eval(cs[k], doc)
  }

  predicate EvalBool(b: BoolQuery, doc: Doc) {
    AllHold(b.filter, doc) && (b.must.Some? ==> AllHold(b.must.value, doc))
  }

  /** `.*` matches every term. */
  lemma {:induction false} AnyMatchesAll(t: string)
    ensures RegexpMatch(".*", t)
  {
    if t != [] {
      AnyMatchesAll(t[1..]);
    }
  }

  /** A leading `.*` skips any prefix of the term. */
  lemma {:induction false} LeadingAny(q: string, t: string)
    ensures RegexpMatch(".*" + q, t) <==> exists i :: 0 <= i <= |t| && RegexpMatch(q, t[i..])
  {
    var p := ".*" + q;
    assert p[2..] == q;
    if t == [] {
      assert t[0..] == t;
    } else {
      LeadingAny(q, t[1..]);
      if RegexpMatch(p, t) {
        if RegexpMatch(q, t) {
          assert t[0..] == t;
        } else {
          var i :| 0 <= i <= |t[1..]| && RegexpMatch(q, t[1..][i..]);
          assert t[1..][i..] == t[i + 1..];
        }
      } else {
        forall i | 0 <= i <= |t| ensures !RegexpMatch(q, t[i..]) {
          if i == 0 {
            assert t[0..] == t;
          } else {
            assert t[1..][i - 1..] == t[i..];
          }
        }
      }
    }
  }
}
