/** The `param_replace` template tag, which builds the query string of a pagination link: it
    copies the request's query parameters, overrides some of them, and drops every parameter
    whose value is empty. */
module CatalogExtras {

  /** A value that can sit in the query map: a request parameter is a string; an override
      from a template can also be a number or None. */
  datatype Value = Str(s: string) | Int(i: int) | Null

  /** Python truthiness of a value. */
  predicate Truthy(v: Value) {
    match v
    case Str(s) => s != []
    case Int(i) => i != 0
    case Null => false
  }

  /** A QueryDict: every key holds a list of values. */
  type QueryDict = map<string, seq<Value>>

  /** What `d.items()` yields for a key is the last value of its list (or an empty list, which
      is falsy); the key is kept when that is truthy. */
  predicate KeyTruthy(vs: seq<Value>) {
    vs != [] && Truthy(vs[|vs| - 1])
  }

  /** The query map with every override applied: `d[k] = v` replaces the whole list. */
  function Overridden(get: QueryDict, kwargs: map<string, Value>): QueryDict {
    map k | k in get.Keys + kwargs.Keys :: if k in kwargs then [kwargs[k]] else get[k]
  }

  /** The keys whose value is truthy, with their lists. */
  function KeepTruthy(d: QueryDict): QueryDict {
    map k | k in d && KeyTruthy(d[k]) :: d[k]
  }

  /** The parameters of the link: overrides with a truthy value, and the request's own
      parameters that are not overridden and whose value is truthy. */
  function Replaced(get: QueryDict, kwargs: map<string, Value>): (r: QueryDict)
    ensures forall k :: k in kwargs && Truthy(kwargs[k]) ==> k in r && r[k] == [kwargs[k]]
    ensures forall k :: k in kwargs && !Truthy(kwargs[k]) ==> k !in r
    ensures forall k :: k !in kwargs ==> (k in r <==> k in get && KeyTruthy(get[k]))
    ensures forall k :: k in r && k !in kwargs ==> r[k] == get[k]
    ensures forall k :: k in r ==> KeyTruthy(r[k])
  {
    KeepTruthy(Overridden(get, kwargs))
  }

  /** Applying the same overrides to a link's own parameters changes nothing more. */
  lemma ReplacedIdempotent(get: QueryDict, kwargs: map<string, Value>)
    ensures Replaced(Replaced(get, kwargs), kwargs) == Replaced(get, kwargs)
  {
    var once := Replaced(get, kwargs);
    var twice := Replaced(once, kwargs);
    forall k | k in kwargs && Truthy(kwargs[k]) ensures KeyTruthy([kwargs[k]]) {
    }
    assert twice.Keys == once.Keys;
  }

  /** param_replace: copy the request's parameters, set each override, then delete every key
      whose value is falsy. The request's own map is a value and is left as it was. */
  method ParamReplace(get: QueryDict, kwargs: map<string, Value>) returns (d: QueryDict)
    ensures d == Replaced(get, kwargs)
  {
    d := SetOverrides(get, kwargs);
    d := DeleteFalsy(d);
  }

  /** The first loop: `for k, v in kwargs.items(): d[k] = v` on a copy of the request's map. */
  method SetOverrides(get: QueryDict, kwargs: map<string, Value>) returns (d: QueryDict)
    ensures d == Overridden(get, kwargs)
  {
    d := get;
    var todo := kwargs.Keys;
    while todo != {}
      invariant todo <= kwargs.Keys
      invariant d.Keys == get.Keys + (kwargs.Keys - todo)
      invariant forall k :: k in d ==> d[k] == if k in kwargs && k !in todo then [kwargs[k]] else get[k]
      decreases todo
    {
      var k :| k in todo;
      d := d[k := [kwargs[k]]];
      todo := todo - {k};
    }
    assert d.Keys == Overridden(get, kwargs).Keys;
  }

  /** The second loop: collect the keys whose value is falsy, then `del d[k]` each of them. */
  method DeleteFalsy(m: QueryDict) returns (d: QueryDict)
    ensures d == KeepTruthy(m)
  {
    d := m;
    var falsy := set k | k in d && !KeyTruthy(d[k]);
    var gone := falsy;
    while gone != {}
      invariant gone <= falsy
      invariant d.Keys == m.Keys - (falsy - gone)
      invariant forall k :: k in d ==> d[k] == m[k]
      decreases gone
    {
      var k :| k in gone;
      d := d - {k};
      gone := gone - {k};
    }
    assert d.Keys == KeepTruthy(m).Keys;
  }
}
