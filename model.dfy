/**
 * The data model of model.go: mock definitions and responses as decoded
 * from a definition file, the normalised incoming request, and the
 * parameter maps with their merge precedence.
 */
module Model {

  /** A `params` map (name to value), as Go's `map[string]string`. */
  type Params = map<string, string>

  /**
   * A decoded value of a parsed request body or of a rule context entry
   * (Go's `interface{}`). Numbers are kept as integers: the float64 of
   * the JSON decoder is not represented.
   */
  datatype Value =
    | Str(s: string)
    | Number(n: int)
    | Boolean(b: bool)
    | Null
    | List(items: seq<Value>)
    | Object(fields: map<string, Value>)

  /** One candidate response of a definition (`mockResponse`). */
  datatype MockResponse = MockResponse(
    responseHeaders: map<string, string>,
    rules: seq<string>,
    delay: int,
    statusCode: int,
    enableTemplate: bool,
    body: string)
  {
    /** `isNil`: indistinguishable from the zero value for selection purposes. */
    predicate IsNil() {
      statusCode == 0 && body == "" && |rules| == 0
    }

    /** `isDefault`: a response without rules. */
    predicate IsDefault() {
      |rules| == 0
    }
  }

  /** Go's zero `mockResponse`, what `findFirst` hands back on failure. */
  const ZeroResponse := MockResponse(map[], [], 0, 0, false, "")

  /**
   * A mock definition (`fileBasedMockDefinition`). The last four fields
   * are the deferred ones, filled in when the definition is loaded.
   */
  datatype Definition = Definition(
    host: string,
    path: string,
    verb: string,
    desc: string,
    responses: seq<MockResponse>,
    compiledPath: string,
    params: seq<string>,
    containParams: bool,
    containsWildcard: bool)

  /** The normalised view of a request (`incomingRequest`). */
  datatype IncomingRequest = IncomingRequest(
    host: string,
    verb: string,
    endpoint: string,
    headers: Params,
    cookies: Params,
    queryParams: Params,
    routeParams: Params,
    body: map<string, Value>,
    rawBody: string)

  /** A nil response is a default one, and the zero value is nil. */
  lemma NilIsDefault(r: MockResponse)
    ensures r.IsNil() ==> r.IsDefault()
    ensures r.IsDefault() <==> r.rules == []
    ensures ZeroResponse.IsNil()
  {
  }

  /** `export` as a value: every string wrapped as a decoded value. */
  function Exported(p: Params): (m: map<string, Value>)
    ensures m.Keys == p.Keys
    ensures forall key :: key in p ==> m[key] == Str(p[key])
  {
    map key | key in p :: Str(p[key])
  }

  /** `params.export`: copies the map entry by entry into a fresh map. */
  method Export(p: Params) returns (interfaceMap: map<string, Value>)
    ensures interfaceMap.Keys == p.Keys
    ensures forall key :: key in p ==> interfaceMap[key] == Str(p[key])
  {
    interfaceMap := map[];
    var todo := p.Keys;
    while todo != {}
      invariant todo <= p.Keys
      invariant interfaceMap.Keys == p.Keys - todo
      invariant forall key :: key in interfaceMap ==> interfaceMap[key] == Str(p[key])
    {
      var key :| key in todo;
      interfaceMap := interfaceMap[key := Str(p[key])];
      todo := todo - {key};
    }
  }

  /** The maps of `data` laid over each other, later ones winning. */
  function Merged(data: seq<Params>): Params {
    if |data| == 0 then map[] else Merged(data[..|data| - 1]) + data[|data| - 1]
  }

  /** The keys of a merge are the keys of all its inputs. */
  lemma {:induction false} MergedKeys(data: seq<Params>, key: string)
    ensures key in Merged(data) <==> exists i :: 0 <= i < |data| && key in data[i]
  {
    if |data| > 0 {
      var init := data[..|data| - 1];
      MergedKeys(init, key);
      assert forall i :: 0 <= i < |init| ==> init[i] == data[i];
    }
  }

  /** Each merged value comes from the last input map that holds the key. */
  lemma {:induction false} MergedLastWriter(data: seq<Params>, key: string, i: nat)
    requires i < |data| && key in data[i]
    requires forall j :: i < j < |data| ==> key !in data[j]
    ensures key in Merged(data) && Merged(data)[key] == data[i][key]
  {
    var init := data[..|data| - 1];
    if i < |data| - 1 {
      assert forall j :: i < j < |init| ==> init[j] == data[j];
      MergedLastWriter(init, key, i);
    }
  }

  /** Merging one more map of `data` overlays it on the merge so far. */
  lemma MergedPrefix(data: seq<Params>, i: nat)
    requires i < |data|
    ensures Merged(data[..i + 1]) == Merged(data[..i]) + data[i]
  {
    assert data[..i + 1][..i] == data[..i];
  }

  /** The entries of `m` whose keys are in `ks`. */
  function Restrict(m: Params, ks: set<string>): Params {
    map k | k in ks && k in m :: m[k]
  }

  /** Restricting a map to all its keys gives the map back. */
  lemma RestrictAll(m: Params, ks: set<string>)
    requires ks == m.Keys
    ensures Restrict(m, ks) == m
  {
  }

  /** Overlaying one more entry of `m` is a single map update. */
  lemma OverlayAdd(base: Params, m: Params, ks: set<string>, key: string)
    requires key in m
    ensures base + Restrict(m, ks + {key}) == (base + Restrict(m, ks))[key := m[key]]
  {
    assert Restrict(m, ks + {key}) == Restrict(m, ks)[key := m[key]];
  }

  /** `mergeMaps`: fills a fresh map, map after map, overwriting keys. */
  method MergeMaps(data: seq<Params>) returns (merged: Params)
    ensures merged == Merged(data)
  {
    merged := map[];
    for i := 0 to |data|
      invariant merged == Merged(data[..i])
    {
      var param := data[i];
      ghost var before := merged;
      var todo := param.Keys;
      ghost var done: set<string> := {};
      while todo != {}
        invariant todo <= param.Keys && done == param.Keys - todo
        invariant merged == before + Restrict(param, done)
      {
        var key :| key in todo;
        OverlayAdd(before, param, done, key);
        merged := merged[key := param[key]];
        todo := todo - {key};
        done := done + {key};
      }
      RestrictAll(param, done);
      MergedPrefix(data, i);
    }
    assert data[..|data|] == data;
  }

  /**
   * `collectAllParams`: query parameters, cookies, headers and route
   * parameters merged in that order, so a route parameter beats a header,
   * a header beats a cookie and a cookie beats a query parameter.
   */
  function CollectAllParams(req: IncomingRequest): (all: Params)
    ensures all.Keys == req.queryParams.Keys + req.cookies.Keys + req.headers.Keys + req.routeParams.Keys
    ensures forall key :: key in req.routeParams ==> all[key] == req.routeParams[key]
    ensures forall key :: key in req.headers && key !in req.routeParams ==>
      all[key] == req.headers[key]
    ensures forall key :: key in req.cookies && key !in req.headers && key !in req.routeParams ==>
      all[key] == req.cookies[key]
    ensures forall key ::
      key in req.queryParams && key !in req.cookies && key !in req.headers && key !in req.routeParams ==>
        all[key] == req.queryParams[key]
  {
    var data := [req.queryParams, req.cookies, req.headers, req.routeParams];
    var q, c, h := req.queryParams, req.cookies, req.headers;
    assert data[..3] == [q, c, h] && [q, c, h][..2] == [q, c] && [q, c][..1] == [q] && [q][..0] == [];
    assert Merged([q]) == q;
    assert Merged([q, c]) == q + c;
    assert Merged([q, c, h]) == q + c + h;
    assert Merged(data) == q + c + h + req.routeParams;
    Merged(data)
  }
}
