# go-mockhttp: mock resolution, modelled in Dafny

go-mockhttp is a Go library that serves mock HTTP responses to an
`http.Client`. It reads mock definitions from a directory of YAML files.
Each definition names a host, a method and a path template, with a list
of candidate responses guarded by rules. When a request arrives, the
resolver does four things:

- it normalises the request: path, headers, cookies, query parameters and
  decoded body;
- it finds the first definition whose template matches;
- it picks the first response whose rules all hold, or else the first
  response without rules;
- it renders that response.

This project models that core and proves its properties:

- `path_clean.dfy` (module `PathClean`) covers `CleanPath` and `bufApp` of
  `pathregex/path.go`. The byte loop with its read and write indices and
  its lazily allocated buffer is a method over an `array<char>`. It is
  proved equal to a specification function `Clean` built on a stack of
  path elements. The properties of cleaning are lemmas about `Clean`.
- `path_match.dfy` (module `PathRegex`) covers `CompilePath` and
  `MatchPath`. A compiled template is a structured `Pattern`: literal
  characters, single-segment parameters, and one of three tails. Matching
  is defined over that structure, following a backtracking matcher. The
  pattern is proved to render as exactly the regular-expression text the
  Go code assembles. It is also proved sound and complete against an
  independent "fits" relation. Every case of `TestCompilePath` and
  `TestMatchPath` in `path_test.go` has a lemma. The compile lemmas state
  the expected expression text. The four longest texts are written as
  pieces cut at the capture groups.
- `reader.dfy` (module `Reader`) covers the replayable body reader of
  `reuseable_reader.go`. It is a class over two buffers that keeps the
  invariant "read part ++ unread part == captured body".
- `collection.dfy` (module `Collection`) covers the generic helpers of
  `collection.go`. Each helper is a loop proved against a specification
  function.
- `model.dfy` (module `Model`) covers the data model of `model.go` and the
  last-writer-wins parameter merge.
- `policy.dfy` (module `PolicyInterpreter`) covers validation of the
  Content-Type and the choice of a response (`policy_intepreter.go`). The
  rule evaluator is a function parameter.
- `resolver.dfy` (module `Resolver`) covers `resolver.go`:
  - loading definitions into the `FileBasedResolver` class, with its
    load-once flag;
  - the three tiers (exact, parameterised, wildcard) and the first-match
    search;
  - header, cookie and query extraction;
  - body dispatch by Content-Type;
  - response assembly;
  - `Resolve` itself, proved equal to a specification function
    `Resolution`.
- `errors.dfy` and `wrappers.dfy` hold the error values of `error.go` and
  the `Option`/`Result` types.

The Go files refer to names the package does not define
(`ExtractPathParam`, `find`, `satisfyEvery`, `fileBasedMockPolicy`,
`ErrPolicyLoaded`), so the model follows the evident intent:

- `findMockResponse` uses the `(bool, map)` result of `MatchPath` rather
  than the missing `ExtractPathParam`.
- `chooseResponse` uses `findFirst` and `all` where the code calls `find`
  and `satisfyEvery`.
- `fileBasedMockPolicy` is `fileBasedMockDefinition`.
- The "already loaded" error is `ErrDefinitionLoaded` of `error.go`.

Some outside pieces are function parameters of the model:

- a directory listing is a list of `Entry` values, each a directory or
  the result of decoding a file;
- the rule evaluator;
- the form, JSON and XML body parsers;
- template rendering;
- content-type sniffing.

## Model

| member | source | states |
|---|---|---|
| Errors.SentinelTexts | error.go:5-12 | two sentinel errors print the same text exactly when they are the same error |
| Collection.In | collection.go:13-17 | true exactly when `current` occurs in the list |
| Collection.Some | collection.go:34-41 | true exactly when some element satisfies the predicate; false on the empty list |
| Collection.All | collection.go:58-65 | true exactly when every element satisfies the predicate; true on the empty list |
| Collection.First | collection.go:82-90 | fails with "no match found" exactly when no element satisfies the predicate; otherwise returns a satisfying element at an index with no satisfying element before it |
| Collection.FindFirst | collection.go:82-90 | the early-return loop returns `First`: the lowest-index satisfying element, or the error |
| Collection.Merge | collection.go:99-105 | the result is the inputs concatenated in order, and its length is the sum of the input lengths |
| Collection.FlattenLength | collection.go:99-105 | the concatenation of the lists is as long as the sum of their lengths |
| Collection.FlattenAppend | collection.go:99-105 | concatenating a split list of lists is concatenating each part, then joining the parts |
| Collection.Filter | collection.go:116-124 | the loop returns `Filtered`: the satisfying elements in input order |
| Collection.FilteredMembers | collection.go:116-124 | an element is kept exactly when it occurs in the input and satisfies the condition |
| Collection.FilteredAppend | collection.go:116-124 | filtering a concatenation is concatenating the filtered parts, so input order is preserved |
| Collection.FilteredLength | collection.go:116-124 | the result is never longer than the input |
| Model.NilIsDefault | model.go:26-32 | `isNil` (status 0, empty body, no rules) implies `isDefault`; `isDefault` holds exactly when the rule list is empty; the zero response is nil |
| Model.Exported | model.go:36-44 | the exported map has the same keys, each with its value wrapped as a string |
| Model.Export | model.go:36-44 | the loop builds a map with the same keys and each value wrapped unchanged |
| Model.MergedKeys | model.go:62-70 | a key is in the merge exactly when it is in one of the input maps |
| Model.MergedLastWriter | model.go:64-68 | a key takes its value from the last input map that contains it |
| Model.MergeMaps | model.go:62-70 | the nested loops build `Merged(data)`, each pass of the outer loop overlaying one more map on the merge so far; its keys and last-writer values are stated by the lemmas above |
| Model.CollectAllParams | model.go:58-60 | the keys are the union of the query, cookie, header and route keys; a route parameter beats a header, a header beats a cookie, a cookie beats a query parameter |
| PathClean.BufApp | pathregex/path.go:128-150 | appends `c` to the written output. With no buffer and `c` already in the input at `w`, nothing is allocated. Otherwise a fresh buffer of the input's length is allocated, holding the prefix |
| PathClean.CleanPath | pathregex/path.go:21-124 | the byte loop returns `Clean(p)`. When no buffer was allocated and `p` is not empty, the result is a prefix of `p` |
| PathClean.Backtrack | pathregex/path.go:77-91 | moving the write index back to the last kept separator leaves written exactly the rendering of the stack without its last element |
| PathClean.CopyElement | pathregex/path.go:101-105 | the copy loop stops at the next separator or the end and appends exactly the characters it passed over |
| PathClean.CleanRooted | pathregex/path.go:24-52 | the cleaned path is never empty and always begins with `/`, even when the input does not; `""` cleans to `"/"` |
| PathClean.CleanTrailing | pathregex/path.go:54-115 | for a non-empty input, the result ends in `/` exactly when the input ended in `/` or in a final `.` element and the result is not the root |
| PathClean.CleanSeparated | pathregex/path.go:61-109 | every `/` of the result either ends it or is followed by a proper element: not empty, not `.`, not `..` |
| PathClean.DotDotCancels | pathregex/path.go:75-92 | an element followed by `..` leaves the element stack as if neither were there |
| PathClean.InnerDotDot | pathregex/path.go:75-92 | cleaning `x/e/..rest` gives the same result as cleaning `x rest`: an inner `..` removes the element before it |
| PathClean.LeadingDotDot | pathregex/path.go:75-92 | a `..` at the root is dropped: `/..rest` cleans like `rest` |
| PathClean.CleanWalk | pathregex/path.go:61-109 | cleaning a path does not change the element stack it produces |
| PathClean.CleanRendered | pathregex/path.go:8-20 | a rooted rendering of proper elements is already clean |
| PathClean.CleanIdempotent | pathregex/path.go:8-20 | cleaning an already cleaned path returns it unchanged: `Clean(Clean(p)) == Clean(p)` for every `p` |
| PathRegex.CompilePath | pathregex/path.go:170-204 | with `end` and `caseSensitive` true: the pattern renders as exactly the expression text the Go code builds, and the names are the token matches of that text without their `:`; equivalently the pattern is `Compile(path)` and the names are the `:word` tokens of the canonical template, left to right, then `*` when the template ends in `*` |
| PathRegex.TokenNames | pathregex/path.go:177-182 | the names are the token matches without their leading `:`, left to right |
| PathRegex.CompileSource | pathregex/path.go:172-194 | the structured pattern renders as exactly the expression text the Go code builds: tail stripped, leading slashes collapsed, quoting, `/` escaped, tokens replaced, `^` and the tail. The names equal the token matches of the quoted text |
| PathRegex.NoNames | pathregex/path.go:177-187 | a template without `:` and without a final `*` has no parameter names |
| PathRegex.TwoCompile | pathregex/path_test.go:28-36 | `/lit/:n1/:n2` compiles to the literal `/lit/`, a capture, `/`, a capture, then optional trailing slashes; its names are `n1`, `n2` |
| PathRegex.ScanTwoTokens | pathregex/path.go:177-183 | a token after literal text in the same segment is still a capture |
| PathRegex.TwoTokenCompile | pathregex/path.go:170-194 | a rooted template `pre:n1` `mid:n2`, with literal text before each token, compiles to `pre` literal, a capture, `mid` literal, a capture; its names are `n1`, `n2` in order |
| PathRegex.OneTokenCompile | pathregex/path.go:170-194 | a rooted template `pre:n`, with token-free literal text before the token, compiles to `pre` literal, one capture, then optional trailing slashes; its only name is `n` |
| PathRegex.TwoTokenStarCompile | pathregex/path.go:170-194 | a final `/*` after a two-token template is stripped from the literal text, becomes the rest-capturing tail, and adds `*` after the names `n1`, `n2` |
| PathRegex.TwoTokensThenCompile | pathregex/path.go:170-194 | extra leading slashes are collapsed into the template's own, and literal text after the second token, even with a `*` inside, stays literal; the names are `n1`, `n2` |
| PathRegex.PlainCompile | pathregex/path.go:170-194 | a rooted template without tokens and without a trailing `*` or `/` compiles to its own characters, then optional trailing slashes |
| PathRegex.StarLiteralRender | pathregex/path.go:174-175 | `/a/*w` renders with both `/` escaped and the `*` escaped as a literal character |
| PathRegex.CollapsedLeadingSlashes | pathregex/path_test.go:19-27 | `////aaaaa/:var1/:var2/*pathname` compiles like `/aaaaa/:var1/:var2/*pathname`, with `*pathname` literal; its names are `var1`, `var2` |
| PathRegex.CollapsedLeadingSlashesSource | pathregex/path_test.go:19-27 | the expression text of that template is `^\/aaaaa\/([^\/]+)\/([^\/]+)\/\*pathname\/*$` |
| PathRegex.CmdToolSubSource | pathregex/path_test.go:28-36 | the expression text of `/cmd/:tool/:sub` is `^\/cmd\/([^\/]+)\/([^\/]+)\/*$` |
| PathRegex.OrderId | pathregex/path_test.go:37-45 | `/order/:id` compiles to the literal `/order/`, one capture, then optional trailing slashes; its only name is `id` |
| PathRegex.OrderIdSource | pathregex/path_test.go:37-45 | the expression text of `/order/:id` is `^\/order\/([^\/]+)\/*$` |
| PathRegex.SrcStarFilepathSource | pathregex/path_test.go:46-54 | the expression text of `/src/*filepath` is `^\/src\/\*filepath\/*$`: the `*` is escaped and is no wildcard |
| PathRegex.InfoUserProject | pathregex/path_test.go:55-63 | `/info/:user/project/:project` compiles to `/info/`, a capture, `/project/`, a capture; its names are `user`, `project` |
| PathRegex.InfoUserProjectSource | pathregex/path_test.go:55-63 | the expression text of that template is `^\/info\/([^\/]+)\/project\/([^\/]+)\/*$` |
| PathRegex.MidSegmentParamSource | pathregex/path_test.go:64-72 | the expression text of `/info/hehe:user/project/:project` is `^\/info\/hehe([^\/]+)\/project\/([^\/]+)\/*$` |
| PathRegex.InfoUserProjectStar | pathregex/path_test.go:73-81 | `/info/:user/project/:project/*` compiles to the same pieces with the rest-capturing tail; its names are `user`, `project`, `*` |
| PathRegex.InfoUserProjectStarSource | pathregex/path_test.go:73-81 | the expression text of that template is `^\/info\/([^\/]+)\/project\/([^\/]+)` followed by the rest-capturing tail: a non-capturing group of the two alternatives `\/(.+)` and `\/*`, then `$` |
| PathRegex.MidSegmentParam | pathregex/path_test.go:64-72 | `/info/hehe:user/project/:project` keeps `hehe` literal, captures `user` right after it, and names `user`, `project` |
| PathRegex.SrcStarFilepath | pathregex/path_test.go:46-54 | `/src/*filepath` has no names and only optional trailing slashes after it |
| PathRegex.TailSound | pathregex/path.go:185-194 | the tail matcher succeeds exactly when some captures fit the tail: only slashes; a separator and a newline-free rest; or the whole rest |
| PathRegex.MatchSound | pathregex/path.go:213 | the groups a match returns fit the pattern: literals equal, each capture a non-empty run without `/`, tail fits |
| PathRegex.MatchComplete | pathregex/path.go:213 | whenever some captures fit the pattern, the match succeeds |
| PathRegex.Greedy | pathregex/path.go:183 | a leading capture of a successful match is at least as long as in any fitting assignment |
| PathRegex.SegmentCapture | pathregex/path.go:183 | a capture followed by `/`, or by the end of a slashes-only tail, takes the whole segment |
| PathRegex.MatchArity | pathregex/path.go:222-224 | a match returns exactly one group per name, so the arity guard of `MatchPath` never fires |
| PathRegex.Bind | pathregex/path.go:226-230 | the key set of the bound map is the set of names |
| PathRegex.BindLast | pathregex/path.go:226-230 | a name is bound to the value at its last occurrence |
| PathRegex.PathMatch | pathregex/path.go:210-233 | a result exists exactly when the compiled cleaned template matches the path; its keys are the names of the cleaned template |
| PathRegex.PathMatchValues | pathregex/path.go:226-230 | each name maps to the group at its last occurrence, and there are as many groups as names |
| PathRegex.MatchPath | pathregex/path.go:210-233 | returns `PathMatch(path, pattern)`, with the boolean true exactly when there is a result: no match gives `(false, None)`, no names gives `(true, {})` |
| PathRegex.MatchOneParam | pathregex/path.go:210-233 | `/a/v` against `/a/:n` gives `{n: v}` for every proper segment `a` without `:`, every name `n` and every non-empty `v` without `/` |
| PathRegex.MatchCmdTool | pathregex/path_test.go:137-146 | `/cmd/test` against `/cmd/:tool` gives `{tool: test}` |
| PathRegex.MatchParamThenLiteral | pathregex/path.go:210-233 | `/a/v/b` against `/a/:n/b` gives `{n: v}` for proper segments `a` and `b` without `:` (`b` not ending in `*`): the literal segment after the capture must follow it |
| PathRegex.MatchInfoNamePublic | pathregex/path_test.go:158-167 | `/info/gordon/public` against `/info/:name/public` gives `{name: gordon}` |
| PathRegex.MatchParamsAroundLiteral | pathregex/path.go:210-233 | `/a/v1/b/v2` against `/a/:n1/b/:n2` gives `{n1: v1, n2: v2}` |
| PathRegex.MatchInfoNameProjectLang | pathregex/path_test.go:168-178 | `/info/gordon/project/go` against `/info/:name/project/:lang` gives `{name: gordon, lang: go}` |
| PathRegex.MatchTwoParams | pathregex/path.go:210-233 | `/lit/v1/v2` against `/lit/:n1/:n2` gives `{n1: v1, n2: v2}` |
| PathRegex.MatchCmdToolSub | pathregex/path_test.go:147-157 | `/cmd/test/3` against `/cmd/:tool/:sub` gives `{tool: test, sub: 3}` |
| PathRegex.MatchStar | pathregex/path.go:186-191 | `/lit/v` against `/lit/*` binds `*` to `v`, without the leading separator |
| PathRegex.MatchSrcStar | pathregex/path_test.go:179-188 | `/src/aaaaaaaaaaaaaaaa` against `/src/*` gives `{"*": "aaaaaaaaaaaaaaaa"}` |
| Reader.ReusableReader.constructor | reuseable_reader.go:18-28 | the whole source is in `readBuf`, `backBuf` is empty, and the invariant holds |
| Reader.ReusableReader.Read | reuseable_reader.go:33-39 | the invariant `backBuf ++ readBuf == data` is kept. With bytes left, the first `min(len(p), len(readBuf))` of them go into `p` in order and move to `backBuf`. At end of data a non-empty `p` gets end-of-data and the reader is reset to the whole body. An empty `p` gets nothing |
| Reader.ReusableReader.Reset | reuseable_reader.go:43-45 | `backBuf` is appended to `readBuf` and emptied, so bytes move rather than copy; after the end of data the whole body is unread again |
| Reader.ReplayAfterReset | reuseable_reader_test.go:10-39 | reading the whole body, resetting and reading again yields the body both times |
| Reader.ReplayAfterEof | reuseable_reader.go:33-39 | reading to end of data resets by itself, so the next read yields the whole body again |
| PolicyInterpreter.BodyMimeTypesListed | policy_intepreter.go:10-25 | the supported body types are the six listed strings: JSON, then XML, then form |
| PolicyInterpreter.ValidateTarget | policy_intepreter.go:27-46 | methods other than PUT, POST, PATCH and DELETE pass whatever the headers. For those four, a missing Content-Type gives "unable to find content type", and one outside the six types gives "unsupported request content type" |
| PolicyInterpreter.ContextOf | policy_intepreter.go:86-93 | the rule context carries the raw and parsed body, and every parameter map with the same keys and each value exported as a string |
| PolicyInterpreter.IsRuleFulfilled | policy_intepreter.go:85-98 | a rule is fulfilled exactly when it evaluates to true; an evaluation error counts as not fulfilled |
| PolicyInterpreter.ChooseResponse | policy_intepreter.go:56-81 | any chosen response is one of the definition's responses and is not nil |
| PolicyInterpreter.ChooseSatisfied | policy_intepreter.go:59-71 | the first response whose non-empty rules all hold is chosen, even if a default comes earlier |
| PolicyInterpreter.ChooseDefault | policy_intepreter.go:73-80 | with no satisfied response, the first default is chosen, unless it is nil, in which case nothing is |
| PolicyInterpreter.ChooseNothing | policy_intepreter.go:56-81 | with neither a satisfied nor a default response, nothing is chosen |
| PolicyInterpreter.MissingTypeNotSentinel | policy_intepreter.go:35-37 | the missing-type error of validation prints the text of `ErrNoContentType` but is a different error value |
| PolicyInterpreter.FindResponse | policy_intepreter.go:48-54 | fails exactly when validation fails, with the validation error itself and without choosing; otherwise returns the chosen response |
| Resolver.Prepare | resolver.go:80-84 | a loaded definition keeps its own fields. The compiled path is the Go expression text, `params` are the template's names, `containParams` is "params non-empty" and `containsWildcard` is "the template ends in `*`" |
| Resolver.PrepareAgain | resolver.go:80-84 | preparing is idempotent |
| Resolver.WildcardName | resolver.go:265-272 | `*` is among the names exactly when the template ends in `*` |
| Resolver.FindWildcard | resolver.go:265-272 | true exactly when `*` is among the names |
| Resolver.CompileDefinition | resolver.go:80-84 | the compiled definition is `Prepare(policy)` |
| Resolver.LoadingStops | resolver.go:64-87 | once a file fails to decode, later entries add nothing |
| Resolver.FileBasedResolver.constructor | resolver.go:39-48 | a new resolver has no definitions and is not loaded |
| Resolver.FileBasedResolver.LoadPolicy | resolver.go:54-91 | A second load gives `ErrDefinitionLoaded` and changes nothing. A failed listing gives its error and changes nothing. Otherwise the prepared definitions are appended in order up to the first bad file, whose error is returned, and the flag is set only when every file decoded. Every stored definition stays prepared |
| Resolver.LoadTwice | resolver.go:55-57 | after a successful load a second load gives `ErrDefinitionLoaded` and keeps the definitions |
| Resolver.FileBasedResolver.GetAllExactPathPolicy | resolver.go:241-247 | exactly the loaded definitions with the method and host and without parameters, in order |
| Resolver.FileBasedResolver.GetAllContainPathParamPolicy | resolver.go:225-231 | exactly the loaded definitions with the method and parameters but no wildcard, in order; the host is not compared |
| Resolver.FileBasedResolver.GetAllHaveWildcardPolicy | resolver.go:257-263 | exactly the loaded definitions with the method, host and a wildcard, in order |
| Resolver.TierMembers | resolver.go:225-263 | a definition is in a tier exactly when it is loaded and passes that tier's test |
| Resolver.OneTier | resolver.go:83-84 | a prepared definition is in at most one tier, and in exactly one for its own host and method; exact means "no names", parameterised "names but no final star", wildcard "final star" |
| Resolver.ParamTierAnyHost | resolver.go:225-231 | a parameterised definition is offered to requests for any host |
| Resolver.FlattenTiers | resolver.go:141-145 | searching the three tiers in turn is searching exact, then parameterised, then wildcard |
| Resolver.FirstMatch | resolver.go:156-172 | nothing is found exactly when no definition matches; a found definition matches at an index with no matching definition before it |
| Resolver.FirstMatchAppend | resolver.go:156-172 | the first match in a concatenation is the first in the front part, if any, else the first in the back part |
| Resolver.TierPriority | resolver.go:141-145 | an exact match wins over a parameterised one, which wins over a wildcard one |
| Resolver.SearchHit | resolver.go:157-166 | the first match met by the nested loop is the first match of the concatenated tiers |
| Resolver.FileBasedResolver.FindMockResponse | resolver.go:156-172 | With no match, the request is unchanged and the result is `ErrNoMockResponse`. Otherwise the route parameters are set to the match's parameters, and the result is `findResponse` for that definition, including its validation error |
| Resolver.ExtractLast | resolver.go:275-297 | `extractHeader` and `extractQueryParam`: every name is kept, with the last of its values |
| Resolver.CookieJar | resolver.go:283-289 | the cookie map has one key per cookie name |
| Resolver.CookieJarLast | resolver.go:283-289 | a repeated cookie name takes the value of its last occurrence |
| Resolver.ExtractCookies | resolver.go:283-289 | the loop builds `CookieJar` |
| Resolver.ExtractFormBody | resolver.go:311-323 | every form field is kept, with the last of its values |
| Resolver.RequestBody | resolver.go:325-353 | A missing Content-Type, or one outside the form, JSON and XML lists, gives `ErrUnsupportedContentType`. Otherwise the form, JSON or XML decoder runs on exact match, tried in that order, and its error is passed on |
| Resolver.ExtractReqBody | resolver.go:325-353 | the dispatch over `some` returns `RequestBody` |
| Resolver.RenderedBody | resolver.go:184-192 | without templating the body is the configured one; with templating it is the template executed over all request parameters, and a render failure gives `ErrCommon` |
| Resolver.ResponseHeader | resolver.go:194-205 | every configured header with its single value, and a sniffed Content-Type only when none is configured |
| Resolver.Generated | resolver.go:179-212 | fails with `ErrCommon` exactly when rendering fails; otherwise it carries the rendered body, the configured status code and the assembled headers |
| Resolver.FileBasedResolver.GenerateResp | resolver.go:179-212 | the header loop with its Content-Type flag returns `Generated` |
| Resolver.Normalised | resolver.go:117-139 | a body that cannot be decoded gives the decoder's error. Otherwise the normalised request has the cleaned path, the host and method, last-value headers and query, the cookie map, the raw and decoded body (empty without a body), and no route parameters yet |
| Resolver.ResolveUnsupportedBody | resolver.go:119-128 | a body whose Content-Type is missing or unsupported ends resolution with `ErrUnsupportedContentType` |
| Resolver.ResolveUnmatched | resolver.go:146-151 | when no candidate template matches, the result is `ErrNoMockResponse` |
| Resolver.ResolveUnanswered | resolver.go:146-151 | when a definition matches but no response qualifies, the result is also `ErrNoMockResponse` |
| Resolver.ResolvedDefinition | resolver.go:141-145 | the definition a request resolves to is loaded and has the request's method, and its host unless it comes from the parameterised tier |
| Resolver.FileBasedResolver.Resolve | resolver.go:109-154 | the method returns `Resolution`: normalise, search the tiers, choose a response, render it, with each error path as listed above |

## Left out

- File system and YAML:
  - `os.Stat` in the constructor, `os.ReadDir` and `os.ReadFile` are left out; a listing is given as a `Result` over `Entry` values.
  - YAML decoding is given as each file's decoded result.
- Go's regexp engine is not modelled. Matching is defined over the structured pattern, and `CompileSource` ties that pattern to the expression text the Go code builds.
- `CompilePath` is modelled only with `end` and `caseSensitive` both true, the only way `MatchPath` calls it. The `end == false` lookahead branch and the `(?i)` prefix are left out.
- Resolver.RenderedBody, Resolver.Generated and Resolver.FileBasedResolver.GenerateResp: template parsing and execution are a stateless function parameter, so each templated response is rendered on its own. The Go resolver instead re-parses one shared `html/template` (created once in the constructor) for every templated response. `html/template` refuses Parse once the template has been executed, so every templated response after the first on a resolver panics in `template.Must`. That panic is not modelled, and neither is the panic on a template that does not parse. Every render failure is `ErrCommon`.
- `http.DetectContentType` is a function parameter.
- Request parsing by the standard library is out:
  - `req.Cookies()` is a parameter, given as a list of cookies.
  - `URL.Query()` and `ParseForm` are parameters whose value lists are never empty.
  - Header names are not canonicalised.
  - Header value lists are never empty (`Values`). `extractHeader` indexes the last value, so the Go code panics on an empty list, which a caller can build by assigning `req.Header[name] = []string{}`; that panic is not modelled.
- `Resolve` reads the body twice. The first read is `extractRawBody` (resolver.go:120). The second is inside the body dispatch: `ParseForm` for forms (resolver.go:313), another `extractRawBody` for JSON and XML (resolver.go:340). The model gives both reads the whole body. That matches the Go code only when the body is the replayable reader, which resets itself at end of data (`Reader.ReplayAfterEof`). Only `FromRequest` installs that reader (request.go:225-237), and only the round tripper calls it (roundtripper.go:24). A request built with `NewRequest` and sent with `Client.Do` or `Client.Post` (client.go:144-155, 239-246) carries a `bytes.NewReader` body (request.go:154-190). On that path the second read sees an empty body: the JSON and XML parsers get empty text and fail, and the form parser finds no fields. That path is not modelled.
- The read error of `io.ReadAll` in `extractRawBody` is left out.
- `atomic.Bool` is a plain field; concurrency is out.
- The rule evaluator is a function parameter; the expression language of `expr` is out. A rule result that is not a boolean panics in the Go code; the evaluator here returns only a boolean or an error.
- The JSON, XML and form parsers are function parameters. JSON's float64 numbers are not represented: `Value` numbers are integers.
- The response body reader, the response delay, the client, the round tripper, the logging hooks and `mock.go` are outside this model.
- PolicyInterpreter.ChooseResponse: the debug line that `chooseResponse` prints on every call is output only and is not modelled.
- The tier getters are passed to `findMockResponse` as precomputed lists rather than as function values.
- `findMockResponse` stores route parameters in the request through a pointer. Here the updated request is returned instead.
- Reader.ReusableReader: the delegated `io.Reader` of the Go struct is the tee over `readBuf`. The model writes the tee out as the two buffer updates.
