/**
 * The file based resolver of resolver.go: loading the mock definitions,
 * sorting them into the exact, path parameter and wildcard tiers, finding
 * the first definition whose template matches a request, and assembling
 * the mock response.
 *
 * The directory listing and the decoded files are given as values; the
 * body parsers, the template engine and content sniffing are parameters.
 */
module Resolver {
  import opened Wrappers
  import opened Errors
  import opened Model
  import Collection
  import PathClean
  import PathRegex
  import PolicyInterpreter

  // ---------------------------------------------------------------------
  // Loading
  // ---------------------------------------------------------------------

  /** An entry of the definition directory: a sub-directory, or a file with the outcome of reading and decoding it. */
  datatype Entry = Directory | File(decoded: Result<Definition, string>)

  /**
   * A decoded definition with its deferred fields filled in: the regular
   * expression text of its template, the parameter names, whether there
   * are any, and whether one of them is the wildcard.
   */
  function Prepare(d: Definition): (p: Definition)
    ensures p.host == d.host && p.path == d.path && p.verb == d.verb
    ensures p.desc == d.desc && p.responses == d.responses
    ensures p.compiledPath == PathRegex.GoSource(d.path)
    ensures p.params == PathRegex.Names(d.path)
    ensures p.containParams <==> p.params != []
    ensures p.containsWildcard <==> PathRegex.HasStar(d.path)
  {
    var names := PathRegex.Names(d.path);
    PathRegex.CompileSource(d.path);
    WildcardName(d.path);
    d.(compiledPath := PathRegex.Source(PathRegex.Compile(d.path)), params := names,
       containParams := |names| > 0, containsWildcard := "*" in names)
  }

  /** A definition whose deferred fields agree with its template. */
  predicate Prepared(d: Definition) {
    d == Prepare(d)
  }

  /** Preparing twice changes nothing. */
  lemma PrepareAgain(d: Definition)
    ensures Prepared(Prepare(d))
  {
  }

  /** The fields `LoadPolicy` computes are the prepared ones, and preparing twice changes nothing. */
  lemma PrepareFrom(d: Definition, pattern: PathRegex.Pattern, params: seq<string>, wildcard: bool)
    requires pattern == PathRegex.Compile(d.path) && params == PathRegex.Names(d.path)
    requires wildcard <==> "*" in params
    ensures d.(compiledPath := PathRegex.Source(pattern), params := params,
               containParams := |params| > 0, containsWildcard := wildcard) == Prepare(d)
    ensures Prepared(Prepare(d))
  {
  }

  lemma AppendAssoc<T>(a: seq<T>, b: seq<T>, x: T)
    ensures a + (b + [x]) == (a + b) + [x]
  {
  }

  /** Every definition of `defs` is prepared. */
  predicate AllPrepared(defs: seq<Definition>) {
    forall i :: 0 <= i < |defs| ==> Prepared(defs[i])
  }

  lemma AllPreparedAppend(defs: seq<Definition>, d: Definition)
    requires AllPrepared(defs) && Prepared(d)
    ensures AllPrepared(defs + [d])
  {
    var all := defs + [d];
    forall i | 0 <= i < |all|
      ensures Prepared(all[i])
    {
      if i < |defs| {
        assert all[i] == defs[i];
      } else {
        assert all[i] == d;
      }
    }
  }

  /** No `:name` parameter is called `*`: the names are runs of word characters. */
  lemma {:induction false} ScanNoStar(s: string)
    ensures "*" !in PathRegex.ParamNames(PathRegex.Scan(s))
    decreases |s|
  {
    if |s| > 0 {
      var ps := PathRegex.Scan(s);
      if s[0] == ':' && |s| > 1 && PathRegex.IsWord(s[1]) {
        var k := PathRegex.WordEnd(s[1..]);
        ScanNoStar(s[1 + k..]);
        assert ps[0] == PathRegex.Param(s[1..1 + k]) && ps[1..] == PathRegex.Scan(s[1 + k..]);
        assert s[1..1 + k][0] == s[1];
        assert PathRegex.ParamNames(ps) == [s[1..1 + k]] + PathRegex.ParamNames(ps[1..]);
      } else {
        ScanNoStar(s[1..]);
        assert ps[1..] == PathRegex.Scan(s[1..]);
      }
    }
  }

  /** `*` is among the names of a template exactly when the template ends in `*`. */
  lemma WildcardName(path: string)
    ensures "*" in PathRegex.Names(path) <==> PathRegex.HasStar(path)
  {
    ScanNoStar(PathRegex.Canonical(path));
  }

  /**
   * The definitions a load adds, from the entries in order: the definitions
   * of the files before the first one that fails, each passed through
   * `prepare`, and that file's error. Directories are skipped.
   */
  function Loading(entries: seq<Entry>, prepare: Definition -> Definition): (seq<Definition>, Option<string>)
    decreases |entries|
  {
    if entries == [] then ([], None)
    else
      var (defs, failure) := Loading(entries[..|entries| - 1], prepare);
      if failure.Some? then (defs, failure)
      else match entries[|entries| - 1]
        case Directory => (defs, None)
        case File(Failure(e)) => (defs, Some(e))
        case File(Success(d)) => (defs + [prepare(d)], None)
  }

  /** One more entry after a load without failure. */
  lemma LoadingNext(entries: seq<Entry>, prepare: Definition -> Definition, i: nat)
    requires i < |entries| && Loading(entries[..i], prepare).1 == None
    ensures Loading(entries[..i + 1], prepare) ==
      match entries[i]
      case Directory => Loading(entries[..i], prepare)
      case File(Failure(e)) => (Loading(entries[..i], prepare).0, Some(e))
      case File(Success(d)) => (Loading(entries[..i], prepare).0 + [prepare(d)], None)
  {
    assert entries[..i + 1][..i] == entries[..i];
  }

  /** Once a file fails, the later entries change nothing. */
  lemma {:induction false} LoadingStops(entries: seq<Entry>, prepare: Definition -> Definition, i: nat)
    requires i <= |entries| && Loading(entries[..i], prepare).1.Some?
    ensures Loading(entries, prepare) == Loading(entries[..i], prepare)
    decreases |entries| - i
  {
    if i < |entries| {
      assert entries[..i + 1][..i] == entries[..i];
      LoadingStops(entries, prepare, i + 1);
    } else {
      assert entries[..i] == entries;
    }
  }

  /**
   * `current` is `base` with the definitions of the first `i` entries
   * loaded, none of which failed.
   */
  ghost predicate LoadedPrefix(base: seq<Definition>, current: seq<Definition>, entries: seq<Entry>, i: nat) {
    i <= |entries| && AllPrepared(current) &&
    Loading(entries[..i], Prepare).1 == None && current == base + Loading(entries[..i], Prepare).0
  }

  lemma LoadStart(base: seq<Definition>, entries: seq<Entry>)
    requires AllPrepared(base)
    ensures LoadedPrefix(base, base, entries, 0)
  {
    assert entries[..0] == [];
    assert base + [] == base;
  }

  lemma LoadSkip(base: seq<Definition>, current: seq<Definition>, entries: seq<Entry>, i: nat)
    requires LoadedPrefix(base, current, entries, i) && i < |entries| && entries[i].Directory?
    ensures LoadedPrefix(base, current, entries, i + 1)
  {
    LoadingNext(entries, Prepare, i);
  }

  lemma LoadAppend(base: seq<Definition>, current: seq<Definition>, entries: seq<Entry>, i: nat, d: Definition)
    requires LoadedPrefix(base, current, entries, i) && i < |entries| && entries[i] == File(Success(d))
    ensures LoadedPrefix(base, current + [Prepare(d)], entries, i + 1)
  {
    LoadingNext(entries, Prepare, i);
    PrepareAgain(d);
    AllPreparedAppend(current, Prepare(d));
    AppendAssoc(base, Loading(entries[..i], Prepare).0, Prepare(d));
  }

  lemma LoadFail(base: seq<Definition>, current: seq<Definition>, entries: seq<Entry>, i: nat, e: string)
    requires LoadedPrefix(base, current, entries, i) && i < |entries| && entries[i] == File(Failure(e))
    ensures AllPrepared(current)
    ensures current == base + Loading(entries, Prepare).0 && Loading(entries, Prepare).1 == Some(e)
  {
    LoadingFails(entries, Prepare, i, e);
  }

  /** A file that fails after a load without failure ends the load with its error. */
  lemma LoadingFails(entries: seq<Entry>, prepare: Definition -> Definition, i: nat, e: string)
    requires i < |entries| && Loading(entries[..i], prepare).1 == None && entries[i] == File(Failure(e))
    ensures Loading(entries, prepare) == (Loading(entries[..i], prepare).0, Some(e))
  {
    var before := Loading(entries[..i], prepare);
    LoadingNext(entries, prepare, i);
    assert Loading(entries[..i + 1], prepare) == (before.0, Some(e));
    LoadingStops(entries, prepare, i + 1);
  }

  lemma LoadEnd(base: seq<Definition>, current: seq<Definition>, entries: seq<Entry>)
    requires LoadedPrefix(base, current, entries, |entries|)
    ensures AllPrepared(current)
    ensures current == base + Loading(entries, Prepare).0 && Loading(entries, Prepare).1 == None
  {
    assert entries[..|entries|] == entries;
  }

  /** `findWildcard`: whether one of the names is `*`. */
  method FindWildcard(params: seq<string>) returns (b: bool)
    ensures b <==> "*" in params
  {
    for i := 0 to |params|
      invariant "*" !in params[..i]
    {
      if params[i] == "*" {
        return true;
      }
      assert params[..i + 1] == params[..i] + [params[i]];
    }
    assert params[..|params|] == params;
    return false;
  }

  /** The deferred fields of one decoded definition, as `LoadPolicy` fills them in. */
  method CompileDefinition(policy: Definition) returns (compiled: Definition)
    ensures compiled == Prepare(policy)
  {
    var compiledRegex, params := PathRegex.CompilePath(policy.path);
    var wildcard := FindWildcard(params);
    PrepareFrom(policy, compiledRegex, params, wildcard);
    compiled := policy.(compiledPath := PathRegex.Source(compiledRegex), params := params,
                        containParams := |params| > 0, containsWildcard := wildcard);
  }

  // ---------------------------------------------------------------------
  // Tiers
  // ---------------------------------------------------------------------

  /** `getAllExactPathPolicy`'s test: same method and host, no parameter, no wildcard. */
  predicate InExactTier(d: Definition, host: string, verb: string) {
    d.verb == verb && d.host == host && !d.containParams && !d.containsWildcard
  }

  /** `getAllContainPathParamPolicy`'s test: same method, parameters but no wildcard. The host is not compared. */
  predicate InParamTier(d: Definition, host: string, verb: string) {
    d.verb == verb && d.containParams && !d.containsWildcard
  }

  /** `getAllHaveWildcardPolicy`'s test: same method and host, parameters and a wildcard. */
  predicate InWildcardTier(d: Definition, host: string, verb: string) {
    d.verb == verb && d.host == host && d.containParams && d.containsWildcard
  }

  function ExactTier(policies: seq<Definition>, host: string, verb: string): seq<Definition> {
    Collection.Filtered(policies, (d: Definition) => InExactTier(d, host, verb))
  }

  function ParamTier(policies: seq<Definition>, host: string, verb: string): seq<Definition> {
    Collection.Filtered(policies, (d: Definition) => InParamTier(d, host, verb))
  }

  function WildcardTier(policies: seq<Definition>, host: string, verb: string): seq<Definition> {
    Collection.Filtered(policies, (d: Definition) => InWildcardTier(d, host, verb))
  }

  /** The tiers in the order they are searched. */
  function Tiers(policies: seq<Definition>, host: string, verb: string): seq<seq<Definition>> {
    [ExactTier(policies, host, verb), ParamTier(policies, host, verb), WildcardTier(policies, host, verb)]
  }

  /** All the candidates of a request, exact ones first, then parameter ones, then wildcard ones. */
  function Candidates(policies: seq<Definition>, host: string, verb: string): seq<Definition> {
    ExactTier(policies, host, verb) + ParamTier(policies, host, verb) + WildcardTier(policies, host, verb)
  }

  /** Searching the tiers one after the other is searching the candidates. */
  lemma FlattenTiers(policies: seq<Definition>, host: string, verb: string)
    ensures Collection.Flatten(Tiers(policies, host, verb)) == Candidates(policies, host, verb)
  {
    var ts := Tiers(policies, host, verb);
    var a, b, c := ts[0], ts[1], ts[2];
    assert [a, b, c][..2] == [a, b] && [a, b][..1] == [a] && [a][..0] == [];
    assert Collection.Flatten([a]) == a;
    assert Collection.Flatten([a, b]) == a + b;
  }

  /** The tiers hold the definitions that pass their tests, each tier in load order. */
  lemma TierMembers(policies: seq<Definition>, host: string, verb: string, d: Definition)
    ensures d in ExactTier(policies, host, verb) <==> d in policies && InExactTier(d, host, verb)
    ensures d in ParamTier(policies, host, verb) <==> d in policies && InParamTier(d, host, verb)
    ensures d in WildcardTier(policies, host, verb) <==> d in policies && InWildcardTier(d, host, verb)
  {
    Collection.FilteredMembers(policies, (d: Definition) => InExactTier(d, host, verb), d);
    Collection.FilteredMembers(policies, (d: Definition) => InParamTier(d, host, verb), d);
    Collection.FilteredMembers(policies, (d: Definition) => InWildcardTier(d, host, verb), d);
  }

  /**
   * A prepared definition falls in exactly one tier for its own method
   * and host, decided by its template alone: no parameter and no wildcard,
   * parameters without a wildcard, or a wildcard. No tier admits it for
   * another method.
   */
  lemma OneTier(d: Definition, host: string, verb: string)
    requires Prepared(d)
    ensures verb == d.verb && host == d.host ==>
      InExactTier(d, host, verb) || InParamTier(d, host, verb) || InWildcardTier(d, host, verb)
    ensures !(InExactTier(d, host, verb) && InParamTier(d, host, verb))
    ensures !(InExactTier(d, host, verb) && InWildcardTier(d, host, verb))
    ensures !(InParamTier(d, host, verb) && InWildcardTier(d, host, verb))
    ensures InExactTier(d, host, verb) <==>
      d.verb == verb && d.host == host && PathRegex.Names(d.path) == []
    ensures InParamTier(d, host, verb) <==>
      d.verb == verb && PathRegex.Names(d.path) != [] && !PathRegex.HasStar(d.path)
    ensures InWildcardTier(d, host, verb) <==>
      d.verb == verb && d.host == host && PathRegex.HasStar(d.path)
  {
    WildcardName(d.path);
  }

  /** The parameter tier serves a definition to a request for any host. */
  lemma ParamTierAnyHost(policies: seq<Definition>, d: Definition, host: string)
    requires d in policies && Prepared(d)
    requires PathRegex.Names(d.path) != [] && !PathRegex.HasStar(d.path)
    ensures d in ParamTier(policies, host, d.verb)
  {
    TierMembers(policies, host, d.verb, d);
  }

  // ---------------------------------------------------------------------
  // First match
  // ---------------------------------------------------------------------

  /** Matching a definition: the parameters of its template's match, or `None`. */
  type Matcher = Definition -> Option<Params>

  /** How a request's endpoint matches a definition's template. */
  function EndpointMatcher(endpoint: string): Matcher {
    (d: Definition) => PathRegex.PathMatch(endpoint, d.path)
  }

  /** The first definition of `defs` that `matches`, with the parameters of that match. */
  function FirstMatch(matches: Matcher, defs: seq<Definition>): (r: Option<(Definition, Params)>)
    ensures r.None? <==> forall i :: 0 <= i < |defs| ==> matches(defs[i]).None?
    ensures r.Some? ==>
      exists i :: 0 <= i < |defs| && defs[i] == r.value.0 && matches(defs[i]) == Some(r.value.1) &&
        forall j :: 0 <= j < i ==> matches(defs[j]).None?
  {
    if defs == [] then None
    else match matches(defs[0])
      case Some(m) => Some((defs[0], m))
      case None =>
        var r := FirstMatch(matches, defs[1..]);
        assert forall i :: 1 <= i < |defs| ==> defs[i] == defs[1..][i - 1];
        r
  }

  /** A match in the first part decides; failing one, the second part decides. */
  lemma {:induction false} FirstMatchAppend(matches: Matcher, a: seq<Definition>, b: seq<Definition>)
    ensures FirstMatch(matches, a + b) ==
      if FirstMatch(matches, a).Some? then FirstMatch(matches, a) else FirstMatch(matches, b)
    decreases |a|
  {
    if a == [] {
      assert a + b == b;
    } else {
      assert (a + b)[0] == a[0] && (a + b)[1..] == a[1..] + b;
      FirstMatchAppend(matches, a[1..], b);
    }
  }

  /** The tiers before `t` and the first `k` definitions of tier `t`, in search order. */
  function Searched(tiers: seq<seq<Definition>>, t: nat, k: nat): seq<Definition>
    requires t < |tiers| && k <= |tiers[t]|
  {
    Collection.Flatten(tiers[..t]) + tiers[t][..k]
  }

  /** A definition that does not match extends the part searched without a match. */
  lemma {:induction false} SearchMiss(matches: Matcher, tiers: seq<seq<Definition>>, t: nat, k: nat)
    requires t < |tiers| && k < |tiers[t]|
    requires FirstMatch(matches, Searched(tiers, t, k)) == None
    requires matches(tiers[t][k]).None?
    ensures FirstMatch(matches, Searched(tiers, t, k + 1)) == None
  {
    assert Searched(tiers, t, k + 1) == Searched(tiers, t, k) + [tiers[t][k]];
    FirstMatchAppend(matches, Searched(tiers, t, k), [tiers[t][k]]);
  }

  /** A whole tier searched without a match. */
  lemma {:induction false} SearchTier(matches: Matcher, tiers: seq<seq<Definition>>, t: nat)
    requires t < |tiers|
    requires FirstMatch(matches, Searched(tiers, t, |tiers[t]|)) == None
    ensures FirstMatch(matches, Collection.Flatten(tiers[..t + 1])) == None
  {
    assert tiers[..t + 1][..t] == tiers[..t];
    assert tiers[t][..|tiers[t]|] == tiers[t];
  }

  /** The first definition that matches is the first match of all the tiers. */
  lemma {:induction false} SearchHit(matches: Matcher, tiers: seq<seq<Definition>>, t: nat, k: nat, m: Params)
    requires t < |tiers| && k < |tiers[t]|
    requires FirstMatch(matches, Searched(tiers, t, k)) == None
    requires matches(tiers[t][k]) == Some(m)
    ensures FirstMatch(matches, Collection.Flatten(tiers)) == Some((tiers[t][k], m))
  {
    var tier := tiers[t];
    var rest := tier[k + 1..] + Collection.Flatten(tiers[t + 1..]);
    assert tiers == tiers[..t + 1] + tiers[t + 1..];
    Collection.FlattenAppend(tiers[..t + 1], tiers[t + 1..]);
    assert tiers[..t + 1][..t] == tiers[..t];
    assert tier == tier[..k] + [tier[k]] + tier[k + 1..];
    assert Collection.Flatten(tiers) == Searched(tiers, t, k) + ([tier[k]] + rest);
    FirstMatchAppend(matches, Searched(tiers, t, k), [tier[k]] + rest);
  }

  /** With all tiers searched and no match, there is no match at all. */
  lemma {:induction false} SearchDone(matches: Matcher, tiers: seq<seq<Definition>>)
    requires FirstMatch(matches, Collection.Flatten(tiers[..|tiers|])) == None
    ensures FirstMatch(matches, Collection.Flatten(tiers)) == None
  {
    assert tiers[..|tiers|] == tiers;
  }

  /**
   * A matching definition of an earlier tier is always preferred: the
   * parameter tier is consulted only when no exact definition matches, and
   * the wildcard tier only when neither of the others has a match.
   */
  lemma TierPriority(matches: Matcher, policies: seq<Definition>, host: string, verb: string)
    ensures var exact, param, wild :=
      ExactTier(policies, host, verb), ParamTier(policies, host, verb), WildcardTier(policies, host, verb);
      FirstMatch(matches, Candidates(policies, host, verb)) ==
        if FirstMatch(matches, exact).Some? then FirstMatch(matches, exact)
        else if FirstMatch(matches, param).Some? then FirstMatch(matches, param)
        else FirstMatch(matches, wild)
  {
    var exact, param, wild :=
      ExactTier(policies, host, verb), ParamTier(policies, host, verb), WildcardTier(policies, host, verb);
    assert exact + param + wild == exact + (param + wild);
    FirstMatchAppend(matches, exact, param + wild);
    FirstMatchAppend(matches, param, wild);
  }

  // ---------------------------------------------------------------------
  // Requests and responses
  // ---------------------------------------------------------------------

  /** The values of a header, query parameter or form field: never an empty list. */
  type Values = s: seq<string> | |s| > 0 witness [""]

  datatype Cookie = Cookie(name: string, value: string)

  /** The parts of an outgoing request that resolution reads. */
  datatype Request = Request(
    host: string,
    verb: string,
    escapedPath: string,
    header: map<string, Values>,
    query: map<string, Values>,
    cookies: seq<Cookie>,
    body: Option<string>)

  /** The body decoders: a form parser over the request, and JSON and XML parsers over the raw body. */
  datatype BodyParsers = BodyParsers(
    form: Request -> Result<map<string, Values>, string>,
    json: string -> Result<map<string, Value>, string>,
    xml: string -> Result<map<string, Value>, string>)

  /** Executing a response template over the request parameters: the text, or an error. */
  type Renderer = (string, Params) -> Result<string, string>

  /** The mock response handed back to the client. */
  datatype Response = Response(body: string, statusCode: int, header: map<string, seq<string>>)

  /** Each name with the last of its values. */
  function LastValues(m: map<string, Values>): Params {
    map name | name in m :: m[name][|m[name]| - 1]
  }

  /**
   * `extractHeader` and `extractQueryParam`: every name is kept, with the
   * last of its values.
   */
  method ExtractLast(values: map<string, Values>) returns (params: Params)
    ensures params.Keys == values.Keys
    ensures forall name :: name in values ==> params[name] == values[name][|values[name]| - 1]
    ensures params == LastValues(values)
  {
    params := map[];
    var todo := values.Keys;
    while todo != {}
      invariant todo <= values.Keys
      invariant params.Keys == values.Keys - todo
      invariant forall name :: name in params ==> params[name] == values[name][|values[name]| - 1]
    {
      var name :| name in todo;
      var vs := values[name];
      params := params[name := vs[|vs| - 1]];
      todo := todo - {name};
    }
  }

  /** The cookies by name; a later cookie of the same name overwrites an earlier one. */
  function CookieJar(cookies: seq<Cookie>): (jar: Params)
    ensures jar.Keys == set c | c in cookies :: c.name
    decreases |cookies|
  {
    if cookies == [] then map[]
    else
      var last := cookies[|cookies| - 1];
      var init := cookies[..|cookies| - 1];
      assert cookies == init + [last];
      CookieJar(init)[last.name := last.value]
  }

  /** A cookie holds the value of the last cookie of its name. */
  lemma {:induction false} CookieJarLast(cookies: seq<Cookie>, i: nat)
    requires i < |cookies|
    requires forall j :: i < j < |cookies| ==> cookies[j].name != cookies[i].name
    ensures CookieJar(cookies)[cookies[i].name] == cookies[i].value
    decreases |cookies|
  {
    var n := |cookies| - 1;
    if i < n {
      CookieJarLast(cookies[..n], i);
    }
  }

  /** `extractCookies`: the cookies stored by name, in order. */
  method ExtractCookies(cookies: seq<Cookie>) returns (jar: Params)
    ensures jar == CookieJar(cookies)
  {
    jar := map[];
    for i := 0 to |cookies|
      invariant jar == CookieJar(cookies[..i])
    {
      assert cookies[..i + 1][..i] == cookies[..i];
      jar := jar[cookies[i].name := cookies[i].value];
    }
    assert cookies[..|cookies|] == cookies;
  }

  /** `extractFormReqBody` over the parsed form: each field with its last value. */
  method ExtractFormBody(form: map<string, Values>) returns (data: map<string, Value>)
    ensures data.Keys == form.Keys
    ensures forall name :: name in form ==> data[name] == Str(form[name][|form[name]| - 1])
    ensures data == Exported(LastValues(form))
  {
    data := map[];
    var todo := form.Keys;
    while todo != {}
      invariant todo <= form.Keys
      invariant data.Keys == form.Keys - todo
      invariant forall name :: name in data ==> data[name] == Str(form[name][|form[name]| - 1])
    {
      var name :| name in todo;
      var vs := form[name];
      data := data[name := Str(vs[|vs| - 1])];
      todo := todo - {name};
    }
  }

  /** What `extractReqBody` yields for a request whose raw body is `raw`. */
  function RequestBody(parsers: BodyParsers, req: Request, raw: string, headers: Params): (r: Result<map<string, Value>, Error>)
    ensures "Content-Type" !in headers ==> r == Failure(UnsupportedContentType)
    ensures "Content-Type" in headers ==>
      var contentType := headers["Content-Type"];
      (contentType in PolicyInterpreter.FormMimeTypes ==>
        r == match parsers.form(req)
          case Failure(e) => Failure(Message(e))
          case Success(form) => Success(Exported(LastValues(form)))) &&
      (contentType !in PolicyInterpreter.FormMimeTypes && contentType in PolicyInterpreter.JsonMimeTypes ==>
        r == match parsers.json(raw)
          case Failure(e) => Failure(Message(e))
          case Success(body) => Success(body)) &&
      (contentType !in PolicyInterpreter.FormMimeTypes && contentType !in PolicyInterpreter.JsonMimeTypes &&
       contentType in PolicyInterpreter.XmlMimeTypes ==>
        r == match parsers.xml(raw)
          case Failure(e) => Failure(Message(e))
          case Success(body) => Success(body)) &&
      (contentType !in PolicyInterpreter.BodyMimeTypes ==> r == Failure(UnsupportedContentType))
  {
    if "Content-Type" !in headers then Failure(UnsupportedContentType)
    else
      var contentType := headers["Content-Type"];
      var checker := (supported: string) => supported == contentType;
      if Collection.Exists(PolicyInterpreter.FormMimeTypes, checker) then
        match parsers.form(req)
        case Failure(e) => Failure(Message(e))
        case Success(form) => Success(Exported(LastValues(form)))
      else if Collection.Exists(PolicyInterpreter.JsonMimeTypes, checker) then
        match parsers.json(raw)
        case Failure(e) => Failure(Message(e))
        case Success(body) => Success(body)
      else if Collection.Exists(PolicyInterpreter.XmlMimeTypes, checker) then
        match parsers.xml(raw)
        case Failure(e) => Failure(Message(e))
        case Success(body) => Success(body)
      else Failure(UnsupportedContentType)
  }

  /**
   * `extractReqBody`: dispatch on the Content-Type header, form types
   * first, then JSON, then XML.
   */
  method ExtractReqBody(parsers: BodyParsers, req: Request, raw: string, headers: Params)
    returns (body: Result<map<string, Value>, Error>)
    ensures body == RequestBody(parsers, req, raw, headers)
  {
    if "Content-Type" !in headers {
      return Failure(UnsupportedContentType);
    }
    var contentType := headers["Content-Type"];
    var checker := (supported: string) => supported == contentType;
    var isForm := Collection.Some(PolicyInterpreter.FormMimeTypes, checker);
    if isForm {
      match parsers.form(req) {
        case Failure(e) =>
          return Failure(Message(e));
        case Success(form) =>
          var data := ExtractFormBody(form);
          return Success(data);
      }
    }
    var isJson := Collection.Some(PolicyInterpreter.JsonMimeTypes, checker);
    if isJson {
      var parsed := parsers.json(raw);
      return if parsed.Failure? then Failure(Message(parsed.error)) else Success(parsed.value);
    }
    var isXml := Collection.Some(PolicyInterpreter.XmlMimeTypes, checker);
    if isXml {
      var parsed := parsers.xml(raw);
      return if parsed.Failure? then Failure(Message(parsed.error)) else Success(parsed.value);
    }
    return Failure(UnsupportedContentType);
  }

  /** The response body: the template executed over all the request parameters when templating is on. */
  function RenderedBody(request: IncomingRequest, response: MockResponse, render: Renderer): (r: Result<string, Error>)
    ensures !response.enableTemplate ==> r == Success(response.body)
    ensures response.enableTemplate ==> (r.Failure? <==> render(response.body, CollectAllParams(request)).Failure?)
    ensures response.enableTemplate && r.Success? ==> r.value == render(response.body, CollectAllParams(request)).value
    ensures r.Failure? ==> r.error == Common
  {
    if !response.enableTemplate then Success(response.body)
    else match render(response.body, CollectAllParams(request))
      case Failure(_) => Failure(Common)
      case Success(text) => Success(text)
  }

  /**
   * The response headers: each configured header with its one value, and,
   * when no Content-Type is configured, the type sniffed from the body.
   */
  function ResponseHeader(headers: map<string, string>, body: string, sniff: string -> string): (h: map<string, seq<string>>)
    ensures h.Keys == headers.Keys + {"Content-Type"}
    ensures forall name :: name in headers ==> h[name] == [headers[name]]
    ensures "Content-Type" !in headers ==> h["Content-Type"] == [sniff(body)]
  {
    var copied := map name | name in headers :: [headers[name]];
    if "Content-Type" in headers then copied else copied["Content-Type" := [sniff(body)]]
  }

  /** What `generateResp` builds: the rendered body, the status code and the headers. */
  function Generated(request: IncomingRequest, response: MockResponse, render: Renderer, sniff: string -> string): (r: Result<Response, Error>)
    ensures r.Failure? <==> RenderedBody(request, response, render).Failure?
    ensures r.Failure? ==> r.error == Common
    ensures r.Success? ==> r.value.statusCode == response.statusCode
    ensures r.Success? ==> r.value.body == RenderedBody(request, response, render).value
    ensures r.Success? ==> r.value.header == ResponseHeader(response.responseHeaders, r.value.body, sniff)
  {
    match RenderedBody(request, response, render)
    case Failure(e) => Failure(e)
    case Success(body) => Success(Response(body, response.statusCode, ResponseHeader(response.responseHeaders, body, sniff)))
  }

  // ---------------------------------------------------------------------
  // Resolution
  // ---------------------------------------------------------------------

  /** The normalised request, before any route parameter is known; a body that cannot be decoded is an error. */
  function Normalised(parsers: BodyParsers, req: Request): (r: Result<IncomingRequest, Error>)
    ensures r.Failure? <==> req.body.Some? && RequestBody(parsers, req, req.body.value, LastValues(req.header)).Failure?
    ensures r.Success? ==> r.value.endpoint == PathClean.Clean(req.escapedPath) && r.value.routeParams == map[]
    ensures r.Success? ==> r.value.host == req.host && r.value.verb == req.verb
    ensures r.Success? ==> r.value.headers == LastValues(req.header) && r.value.queryParams == LastValues(req.query)
    ensures r.Success? ==> r.value.cookies == CookieJar(req.cookies)
    ensures r.Success? && req.body.None? ==> r.value.body == map[] && r.value.rawBody == ""
    ensures r.Success? && req.body.Some? ==> r.value.rawBody == req.body.value
    ensures r.Success? && req.body.Some? ==>
      r.value.body == RequestBody(parsers, req, req.body.value, LastValues(req.header)).value
    ensures r.Failure? ==> r.error == RequestBody(parsers, req, req.body.value, LastValues(req.header)).error
  {
    var headers := LastValues(req.header);
    var raw := if req.body.Some? then req.body.value else "";
    var body := if req.body.Some? then RequestBody(parsers, req, raw, headers) else Success(map[]);
    if body.Failure? then Failure(body.error)
    else Success(IncomingRequest(req.host, req.verb, PathClean.Clean(req.escapedPath), headers,
                                 CookieJar(req.cookies), LastValues(req.query), map[], body.value, raw))
  }

  /**
   * The answer to a normalised request: the response of the first
   * candidate whose template matches, with the route parameters of that
   * match stored in the request.
   */
  function Answer(policies: seq<Definition>, eval: PolicyInterpreter.Evaluator, render: Renderer,
                  sniff: string -> string, request: IncomingRequest): Result<Response, Error>
  {
    match FirstMatch(EndpointMatcher(request.endpoint), Candidates(policies, request.host, request.verb))
    case None => Failure(NoMockResponse)
    case Some((policy, params)) =>
      var matched := request.(routeParams := params);
      match PolicyInterpreter.FindResponse(eval, matched, policy)
      case Failure(e) => Failure(e)
      case Success(None) => Failure(NoMockResponse)
      case Success(Some(response)) => Generated(matched, response, render, sniff)
  }

  /** The outcome of resolving `req` against the loaded definitions `policies`. */
  function Resolution(policies: seq<Definition>, eval: PolicyInterpreter.Evaluator, parsers: BodyParsers,
                      render: Renderer, sniff: string -> string, req: Request): Result<Response, Error>
  {
    match Normalised(parsers, req)
    case Failure(e) => Failure(e)
    case Success(request) => Answer(policies, eval, render, sniff, request)
  }

  /** A body with no Content-Type, or with a type outside the form, JSON and XML lists, is refused. */
  lemma ResolveUnsupportedBody(policies: seq<Definition>, eval: PolicyInterpreter.Evaluator, parsers: BodyParsers,
                               render: Renderer, sniff: string -> string, req: Request)
    requires req.body.Some?
    requires "Content-Type" in req.header ==> LastValues(req.header)["Content-Type"] !in PolicyInterpreter.BodyMimeTypes
    ensures Resolution(policies, eval, parsers, render, sniff, req) == Failure(UnsupportedContentType)
  {
  }

  /** With no candidate whose template matches the endpoint, there is no mock response. */
  lemma ResolveUnmatched(policies: seq<Definition>, eval: PolicyInterpreter.Evaluator,
                         render: Renderer, sniff: string -> string, request: IncomingRequest)
    requires forall d :: d in Candidates(policies, request.host, request.verb) ==>
      PathRegex.PathMatch(request.endpoint, d.path).None?
    ensures Answer(policies, eval, render, sniff, request) == Failure(NoMockResponse)
  {
    var c := Candidates(policies, request.host, request.verb);
    var matcher := EndpointMatcher(request.endpoint);
    forall i | 0 <= i < |c|
      ensures matcher(c[i]).None?
    {
      assert c[i] in c;
    }
  }

  /**
   * A definition that matches but has neither a satisfied response nor a
   * default one gives no mock response either.
   */
  lemma ResolveUnanswered(policies: seq<Definition>, eval: PolicyInterpreter.Evaluator, render: Renderer,
                          sniff: string -> string, request: IncomingRequest, policy: Definition, params: Params)
    requires FirstMatch(EndpointMatcher(request.endpoint), Candidates(policies, request.host, request.verb)) ==
      Some((policy, params))
    requires PolicyInterpreter.ValidateTarget(request.(routeParams := params)) == None
    requires forall j :: 0 <= j < |policy.responses| ==>
      !policy.responses[j].IsDefault() &&
      !PolicyInterpreter.Satisfied(eval, request.(routeParams := params), policy.responses[j])
    ensures Answer(policies, eval, render, sniff, request) == Failure(NoMockResponse)
  {
    PolicyInterpreter.ChooseNothing(eval, request.(routeParams := params), policy);
  }

  /**
   * The definition a request resolves to has the request's method, and the
   * request's host unless it comes from the parameter tier.
   */
  lemma ResolvedDefinition(policies: seq<Definition>, host: string, verb: string, endpoint: string)
    requires FirstMatch(EndpointMatcher(endpoint), Candidates(policies, host, verb)).Some?
    ensures var d := FirstMatch(EndpointMatcher(endpoint), Candidates(policies, host, verb)).value.0;
      d in policies && d.verb == verb && (d.host == host || InParamTier(d, host, verb))
  {
    var c := Candidates(policies, host, verb);
    var d := FirstMatch(EndpointMatcher(endpoint), c).value.0;
    assert d in c;
    TierMembers(policies, host, verb, d);
  }

  /** `fileBasedResolver`: the loaded definitions and whether a load has succeeded. */
  class FileBasedResolver {
    var policies: seq<Definition>
    var isLoaded: bool

    /** Every loaded definition has its deferred fields filled in from its template. */
    ghost predicate Valid()
      reads this
    {
      AllPrepared(policies)
    }

    /** `NewFileResolverAdapter`: no definitions yet, not loaded. */
    constructor ()
      ensures policies == [] && !isLoaded && Valid()
    {
      policies := [];
      isLoaded := false;
    }

    /**
     * `LoadPolicy` over a directory listing: refused once a load has
     * succeeded; otherwise each file's definition is prepared and appended
     * in order, and the resolver counts as loaded only when no file failed.
     */
    method LoadPolicy(listing: Result<seq<Entry>, string>) returns (err: Option<Error>)
      requires Valid()
      modifies this
      ensures Valid()
      ensures old(isLoaded) ==> err == Some(DefinitionLoaded) && policies == old(policies) && isLoaded
      ensures !old(isLoaded) && listing.Failure? ==>
        err == Some(Message(listing.error)) && policies == old(policies) && !isLoaded
      ensures !old(isLoaded) && listing.Success? ==>
        var (added, failure) := Loading(listing.value, Prepare);
        policies == old(policies) + added && isLoaded == failure.None? &&
        err == if failure.Some? then Some(Message(failure.value)) else None
    {
      if isLoaded {
        return Some(DefinitionLoaded);
      }
      if listing.Failure? {
        return Some(Message(listing.error));
      }
      var fileItems := listing.value;
      LoadStart(policies, fileItems);
      for i := 0 to |fileItems|
        invariant !isLoaded
        invariant LoadedPrefix(old(policies), policies, fileItems, i)
      {
        match fileItems[i] {
          case Directory =>
            LoadSkip(old(policies), policies, fileItems, i);
          case File(Failure(e)) =>
            LoadFail(old(policies), policies, fileItems, i, e);
            return Some(Message(e));
          case File(Success(d)) =>
            var policy := CompileDefinition(d);
            LoadAppend(old(policies), policies, fileItems, i, d);
            policies := policies + [policy];
        }
      }
      LoadEnd(old(policies), policies, fileItems);
      isLoaded := true;
      return None;
    }

    /** `getAllExactPathPolicy`. */
    method GetAllExactPathPolicy(host: string, verb: string) returns (r: seq<Definition>)
      ensures r == ExactTier(policies, host, verb)
      ensures forall d :: d in r <==> d in policies && InExactTier(d, host, verb)
    {
      r := Collection.Filter(policies, (d: Definition) => InExactTier(d, host, verb));
      Collection.FilteredIn(policies, (d: Definition) => InExactTier(d, host, verb));
    }

    /** `getAllContainPathParamPolicy`. */
    method GetAllContainPathParamPolicy(host: string, verb: string) returns (r: seq<Definition>)
      ensures r == ParamTier(policies, host, verb)
      ensures forall d :: d in r <==> d in policies && InParamTier(d, host, verb)
    {
      r := Collection.Filter(policies, (d: Definition) => InParamTier(d, host, verb));
      Collection.FilteredIn(policies, (d: Definition) => InParamTier(d, host, verb));
    }

    /** `getAllHaveWildcardPolicy`. */
    method GetAllHaveWildcardPolicy(host: string, verb: string) returns (r: seq<Definition>)
      ensures r == WildcardTier(policies, host, verb)
      ensures forall d :: d in r <==> d in policies && InWildcardTier(d, host, verb)
    {
      r := Collection.Filter(policies, (d: Definition) => InWildcardTier(d, host, verb));
      Collection.FilteredIn(policies, (d: Definition) => InWildcardTier(d, host, verb));
    }

    /**
     * `findMockResponse`: the tiers are searched in order, each in order;
     * the first definition whose template matches the endpoint stores the
     * route parameters in the request and decides the outcome, validation
     * error included. Without a match there is no mock response.
     */
    method FindMockResponse(eval: PolicyInterpreter.Evaluator, request: IncomingRequest, tiers: seq<seq<Definition>>)
      returns (matched: IncomingRequest, resp: Result<Option<MockResponse>, Error>)
      ensures match FirstMatch(EndpointMatcher(request.endpoint), Collection.Flatten(tiers))
        case None => matched == request && resp == Failure(NoMockResponse)
        case Some((policy, params)) =>
          matched == request.(routeParams := params) &&
          resp == PolicyInterpreter.FindResponse(eval, matched, policy)
    {
      ghost var matcher := EndpointMatcher(request.endpoint);
      matched := request;
      for t := 0 to |tiers|
        invariant FirstMatch(matcher, Collection.Flatten(tiers[..t])) == None
      {
        var tier := tiers[t];
        assert tiers[t][..0] == [] && Searched(tiers, t, 0) == Collection.Flatten(tiers[..t]);
        for k := 0 to |tier|
          invariant FirstMatch(matcher, Searched(tiers, t, k)) == None
        {
          var isMatch, params := PathRegex.MatchPath(request.endpoint, tier[k].path);
          assert matcher(tier[k]) == params;
          if isMatch {
            SearchHit(matcher, tiers, t, k, params.value);
            matched := request.(routeParams := params.value);
            resp := PolicyInterpreter.FindResponse(eval, matched, tier[k]);
            return;
          }
          SearchMiss(matcher, tiers, t, k);
        }
        SearchTier(matcher, tiers, t);
      }
      SearchDone(matcher, tiers);
      resp := Failure(NoMockResponse);
    }

    /** `generateResp`: the body rendered if templating is on, the headers copied, the type sniffed if none is set. */
    method GenerateResp(request: IncomingRequest, response: MockResponse, render: Renderer, sniff: string -> string)
      returns (result: Result<Response, Error>)
      ensures result == Generated(request, response, render, sniff)
    {
      var headers := response.responseHeaders;
      var statusCode := response.statusCode;
      var body := response.body;
      if response.enableTemplate {
        var output := render(body, CollectAllParams(request));
        if output.Failure? {
          return Failure(Common);
        }
        body := output.value;
      }
      var actualHeaders: map<string, seq<string>> := map[];
      var isContentTypeSet := false;
      var todo := headers.Keys;
      while todo != {}
        invariant todo <= headers.Keys
        invariant actualHeaders.Keys == headers.Keys - todo
        invariant forall name :: name in actualHeaders ==> actualHeaders[name] == [headers[name]]
        invariant isContentTypeSet <==> "Content-Type" in actualHeaders
      {
        var name :| name in todo;
        if name == "Content-Type" {
          isContentTypeSet := true;
        }
        actualHeaders := actualHeaders[name := [headers[name]]];
        todo := todo - {name};
      }
      assert actualHeaders == map name | name in headers :: [headers[name]];
      if !isContentTypeSet {
        actualHeaders := actualHeaders["Content-Type" := [sniff(body)]];
      }
      assert RenderedBody(request, response, render) == Success(body);
      return Success(Response(body, statusCode, actualHeaders));
    }

    /**
     * `Resolve`: extract the headers and, when there is a body, decode it;
     * build the normalised request; find the first matching definition over
     * the exact, parameter and wildcard tiers; and build its response.
     */
    method Resolve(eval: PolicyInterpreter.Evaluator, parsers: BodyParsers, render: Renderer,
                   sniff: string -> string, req: Request) returns (result: Result<Response, Error>)
      ensures result == Resolution(policies, eval, parsers, render, sniff, req)
    {
      var body: map<string, Value> := map[];
      var rawBody := "";
      var headers := ExtractLast(req.header);
      if req.body.Some? {
        rawBody := req.body.value;
        var decoded := ExtractReqBody(parsers, req, rawBody, headers);
        if decoded.Failure? {
          return Failure(decoded.error);
        }
        body := decoded.value;
      }
      var endpoint;
      ghost var usedBuffer;
      endpoint, usedBuffer := PathClean.CleanPath(req.escapedPath);
      var cookies := ExtractCookies(req.cookies);
      var queryParams := ExtractLast(req.query);
      var request := IncomingRequest(req.host, req.verb, endpoint, headers, cookies, queryParams, map[], body, rawBody);
      assert Normalised(parsers, req) == Success(request);
      var exact := GetAllExactPathPolicy(request.host, request.verb);
      var param := GetAllContainPathParamPolicy(request.host, request.verb);
      var wild := GetAllHaveWildcardPolicy(request.host, request.verb);
      FlattenTiers(policies, req.host, req.verb);
      var matched, mockResp := FindMockResponse(eval, request, [exact, param, wild]);
      if mockResp.Failure? {
        return Failure(mockResp.error);
      }
      if mockResp.value.None? {
        return Failure(NoMockResponse);
      }
      result := GenerateResp(matched, mockResp.value.value, render, sniff);
    }
  }

  /**
   * Two loads on a fresh resolver: once the first has succeeded, the second
   * is refused and keeps the loaded definitions, whatever it would read.
   */
  method LoadTwice(first: Result<seq<Entry>, string>, second: Result<seq<Entry>, string>)
    returns (err1: Option<Error>, err2: Option<Error>, loaded: seq<Definition>, kept: seq<Definition>)
    ensures err1 == None <==> first.Success? && Loading(first.value, Prepare).1 == None
    ensures err1 == None ==> loaded == Loading(first.value, Prepare).0
    ensures err1 == None ==> err2 == Some(DefinitionLoaded) && kept == loaded
  {
    var r := new FileBasedResolver();
    err1 := r.LoadPolicy(first);
    loaded := r.policies;
    err2 := r.LoadPolicy(second);
    kept := r.policies;
  }
}
