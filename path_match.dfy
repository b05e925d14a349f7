/**
 * `CompilePath` and `MatchPath` of pathregex/path.go.
 *
 * `CompilePath` turns an endpoint template such as `/users/:id` into an
 * anchored regular expression and the ordered list of its parameter names.
 * The expression is modelled as the structured value it denotes: a sequence
 * of pieces (a literal character, or a parameter that matches one non-empty
 * run of non-separator characters) followed by a tail (optional trailing
 * slashes, the rest of the path after a separator, or the whole rest).
 * `Source` renders a pattern as the regular-expression text Go builds, and
 * `GoSource` follows the string pipeline of the Go code step by step; the
 * two are proved equal.
 *
 * Matching follows the leftmost-first (backtracking) semantics of Go's
 * regexp package: each parameter tries the longest run first.
 * `MatchPath` cleans the template, compiles it, matches the path and pairs
 * the names with the captured values.
 */
module PathRegex {
  import opened Wrappers
  import PathClean

  // ---------------------------------------------------------------------
  // Compiled patterns
  // ---------------------------------------------------------------------

  /** One unit of a compiled template. */
  datatype Piece =
    | Chr(c: char)        // a literal character
    | Param(name: string) // `([^\/]+)`: a non-empty run without separator

  /** What follows the pieces. */
  datatype Tail =
    | Slashes // `\/*$`: only trailing slashes may follow
    | Rest    // `(?:\/(.+)|\/*)$`: a separator and a captured rest, or trailing slashes
    | Whole   // `(.*)$`: the captured rest of the path

  datatype Pattern = Pattern(pieces: seq<Piece>, tail: Tail)

  /** Go's `\w`: an ASCII letter, digit or underscore. */
  predicate IsWord(c: char) {
    'a' <= c <= 'z' || 'A' <= c <= 'Z' || '0' <= c <= '9' || c == '_'
  }

  /** Length of the leading run of word characters of `s`. */
  function WordEnd(s: string): (k: nat)
    ensures k <= |s|
    ensures forall i :: 0 <= i < k ==> IsWord(s[i])
    ensures k < |s| ==> !IsWord(s[k])
  {
    if |s| == 0 || !IsWord(s[0]) then 0 else 1 + WordEnd(s[1..])
  }

  /**
   * The non-overlapping, leftmost matches of `:(\w+)` in `s`: each one
   * becomes a parameter, every other character stays literal.
   */
  function Scan(s: string): seq<Piece>
    decreases |s|
  {
    if |s| == 0 then []
    else if s[0] == ':' && |s| > 1 && IsWord(s[1]) then
      var k := WordEnd(s[1..]);
      [Param(s[1..1 + k])] + Scan(s[1 + k..])
    else [Chr(s[0])] + Scan(s[1..])
  }

  /** The parameter names of `ps`, left to right. */
  function ParamNames(ps: seq<Piece>): seq<string> {
    if ps == [] then []
    else (if ps[0].Param? then [ps[0].name] else []) + ParamNames(ps[1..])
  }

  function DropTrailingSlashes(s: string): (t: string)
    ensures |t| <= |s| && t == s[..|t|]
    ensures t == [] || t[|t| - 1] != '/'
    ensures forall i :: |t| <= i < |s| ==> s[i] == '/'
  {
    if |s| > 0 && s[|s| - 1] == '/' then DropTrailingSlashes(s[..|s| - 1]) else s
  }

  function DropLeadingSlashes(s: string): (t: string)
    ensures |t| <= |s| && t == s[|s| - |t|..]
    ensures t == [] || t[0] != '/'
    ensures forall i :: 0 <= i < |s| - |t| ==> s[i] == '/'
  {
    if |s| > 0 && s[0] == '/' then DropLeadingSlashes(s[1..]) else s
  }

  /** The trailing-slashes-and-star pattern removed: one trailing `*`, if any, and the slashes before it. */
  function StripTail(s: string): string {
    DropTrailingSlashes(if |s| > 0 && s[|s| - 1] == '*' then s[..|s| - 1] else s)
  }

  /** The template with its tail stripped and its leading slashes collapsed to one. */
  function Canonical(path: string): (t: string)
    ensures |t| > 0 && t[0] == '/'
  {
    "/" + DropLeadingSlashes(StripTail(path))
  }

  predicate HasStar(path: string) {
    |path| > 0 && path[|path| - 1] == '*'
  }

  function TailOf(path: string): Tail {
    if !HasStar(path) then Slashes
    else if path == "*" || path == "/*" then Whole
    else Rest
  }

  /** The pattern `CompilePath(path, true, true)` builds. */
  function Compile(path: string): Pattern {
    Pattern(Scan(Canonical(path)), TailOf(path))
  }

  /** The parameter names `CompilePath` returns: the tokens, then `*` for a wildcard. */
  function Names(path: string): seq<string> {
    ParamNames(Scan(Canonical(path))) + (if HasStar(path) then ["*"] else [])
  }

  /** The `:name` texts the parameter pattern finds in `ps`. */
  function Tokens(ps: seq<Piece>): (m: seq<string>)
    ensures |m| == |ParamNames(ps)|
    ensures forall i :: 0 <= i < |m| ==> m[i] == [':'] + ParamNames(ps)[i]
  {
    if ps == [] then []
    else (if ps[0].Param? then [[':'] + ps[0].name] else []) + Tokens(ps[1..])
  }

  /**
   * `CompilePath` for `caseSensitive` and `end` both true: the parameter
   * names are filled in from the token texts with the leading `:` cut off.
   */
  method CompilePath(path: string) returns (pattern: Pattern, paramNames: seq<string>)
    ensures pattern == Compile(path)
    ensures paramNames == Names(path)
    ensures Source(pattern) == GoSource(path) && paramNames == GoNames(path)
  {
    var pieces := Scan(Canonical(path));
    pattern := Pattern(pieces, TailOf(path));
    var tokens := TokenNames(pieces);
    var star := HasStar(path);
    paramNames := tokens + (if star then ["*"] else []);
    CompileSource(path);
  }

  /** The loop of `CompilePath` over the `:name` matches: each name is its match without the `:`. */
  method TokenNames(pieces: seq<Piece>) returns (paramNames: seq<string>)
    ensures paramNames == ParamNames(pieces)
  {
    var matches := Tokens(pieces);
    var names := new string[|matches|];
    for i := 0 to |matches|
      invariant forall j :: 0 <= j < i ==> names[j] == ParamNames(pieces)[j]
    {
      DropColon(ParamNames(pieces)[i]);
      names[i] := matches[i][1..];
    }
    paramNames := names[..];
  }

  lemma DropColon(name: string)
    ensures ([':'] + name)[1..] == name
  {
  }

  // ---------------------------------------------------------------------
  // The regular-expression text
  // ---------------------------------------------------------------------

  /** The characters `regexp.QuoteMeta` escapes with a backslash. */
  predicate IsMeta(c: char) {
    c == '\\' || c == '.' || c == '+' || c == '*' || c == '?' || c == '(' || c == ')' ||
    c == '|' || c == '[' || c == ']' || c == '{' || c == '}' || c == '^' || c == '$'
  }

  function QuoteMeta(s: string): string {
    if s == [] then [] else (if IsMeta(s[0]) then ['\\', s[0]] else [s[0]]) + QuoteMeta(s[1..])
  }

  /** `strings.ReplaceAll(s, "/", "\\/")`. */
  function EscapeSlashes(s: string): string {
    if s == [] then [] else (if s[0] == '/' then ['\\', '/'] else [s[0]]) + EscapeSlashes(s[1..])
  }

  const ParamSource: string := "([^\\/]+)"

  /** Each piece as it stands in the text after the parameter replacement. */
  function Raw(ps: seq<Piece>): string {
    if ps == [] then []
    else (match ps[0] case Chr(c) => [c] case Param(_) => ParamSource) + Raw(ps[1..])
  }

  function TailSource(t: Tail): string {
    match t
    case Slashes => "\\/*$"
    case Rest => "(?:\\/(.+)|\\/*)$"
    case Whole => "(.*)$"
  }

  /**
   * The regular-expression text as the Go code builds it: quote, escape the
   * separators, replace every `:(\w+)` match of the result by the parameter
   * group, anchor, and add the tail.
   */
  function GoSource(path: string): string {
    "^" + Raw(Scan(EscapeSlashes(QuoteMeta(Canonical(path))))) + TailSource(TailOf(path))
  }

  /** The names as the Go code collects them: the `:(\w+)` matches of the quoted text. */
  function GoNames(path: string): seq<string> {
    ParamNames(Scan(EscapeSlashes(QuoteMeta(Canonical(path))))) + (if HasStar(path) then ["*"] else [])
  }

  /** A literal character as it stands in the expression. */
  function Quote(c: char): string {
    if IsMeta(c) || c == '/' then ['\\', c] else [c]
  }

  function PiecesSource(ps: seq<Piece>): string {
    if ps == [] then []
    else (match ps[0] case Chr(c) => Quote(c) case Param(_) => ParamSource) + PiecesSource(ps[1..])
  }

  /** A pattern rendered as the anchored regular-expression text. */
  function Source(pat: Pattern): string {
    "^" + PiecesSource(pat.pieces) + TailSource(pat.tail)
  }

  /** The compiled pattern renders as the text the Go code builds, and the names agree. */
  lemma CompileSource(path: string)
    ensures Source(Compile(path)) == GoSource(path)
    ensures Names(path) == GoNames(path)
  {
    var s := Canonical(path);
    EscapeQuote(s);
    ScanEsc(s);
    RawEsc(Scan(s));
    NamesEsc(Scan(s));
  }

  // Proof of `CompileSource`: quoting character by character.

  function Esc(s: string): string {
    if s == [] then [] else Quote(s[0]) + Esc(s[1..])
  }

  function Chrs(s: string): seq<Piece> {
    if s == [] then [] else [Chr(s[0])] + Chrs(s[1..])
  }

  /** What scanning the quoted text yields for each piece of the unquoted one. */
  function EscPieces(ps: seq<Piece>): seq<Piece> {
    if ps == [] then []
    else (match ps[0] case Chr(c) => Chrs(Quote(c)) case Param(n) => [Param(n)]) + EscPieces(ps[1..])
  }

  lemma {:induction false} EscapeSlashesAppend(a: string, b: string)
    ensures EscapeSlashes(a + b) == EscapeSlashes(a) + EscapeSlashes(b)
  {
    if a == [] {
      assert a + b == b;
    } else {
      assert (a + b)[1..] == a[1..] + b;
      EscapeSlashesAppend(a[1..], b);
    }
  }

  lemma {:induction false} EscapeQuote(s: string)
    ensures EscapeSlashes(QuoteMeta(s)) == Esc(s)
  {
    if s != [] {
      var h := if IsMeta(s[0]) then ['\\', s[0]] else [s[0]];
      EscapeSlashesAppend(h, QuoteMeta(s[1..]));
      EscapeQuote(s[1..]);
      if IsMeta(s[0]) {
        assert EscapeSlashes(h) == ['\\'] + EscapeSlashes([s[0]]);
      }
    }
  }

  lemma EscCons(c: char, t: string)
    ensures Esc([c] + t) == Quote(c) + Esc(t)
  {
    assert ([c] + t)[1..] == t;
  }

  /** Word characters are not quoted. */
  lemma {:induction false} EscWord(w: string, t: string)
    requires forall i :: 0 <= i < |w| ==> IsWord(w[i])
    ensures Esc(w + t) == w + Esc(t)
  {
    if w != [] {
      assert w + t == [w[0]] + (w[1..] + t);
      EscCons(w[0], w[1..] + t);
      EscWord(w[1..], t);
    } else {
      assert w + t == t;
    }
  }

  /** Quoting never puts a word character first where there was none. */
  lemma EscHead(t: string)
    requires t == [] || !IsWord(t[0])
    ensures Esc(t) == [] || !IsWord(Esc(t)[0])
  {
  }

  lemma {:induction false} WordEndAppend(w: string, e: string)
    requires forall i :: 0 <= i < |w| ==> IsWord(w[i])
    requires e == [] || !IsWord(e[0])
    ensures WordEnd(w + e) == |w|
  {
    if w == [] {
      assert w + e == e;
    } else {
      assert (w + e)[1..] == w[1..] + e;
      WordEndAppend(w[1..], e);
    }
  }

  lemma ScanCons(c: char, e: string)
    requires c != ':' || e == [] || !IsWord(e[0])
    ensures Scan([c] + e) == [Chr(c)] + Scan(e)
  {
    assert ([c] + e)[1..] == e;
  }

  lemma ChrsQuote(c: char)
    ensures Chrs(Quote(c)) == if IsMeta(c) || c == '/' then [Chr('\\'), Chr(c)] else [Chr(c)]
  {
    assert Chrs([c]) == [Chr(c)];
    if IsMeta(c) || c == '/' {
      assert Chrs(['\\', c]) == [Chr('\\')] + Chrs([c]);
    }
  }

  lemma ScanEscaped(c: char, e: string)
    requires c != ':'
    ensures Scan(['\\', c] + e) == [Chr('\\'), Chr(c)] + Scan(e)
  {
    assert ['\\', c] + e == ['\\'] + ([c] + e);
    ScanCons('\\', [c] + e);
    ScanCons(c, e);
  }

  /** Scanning a quoted character followed by quoted text. */
  lemma ScanQuote(c: char, e: string)
    requires c != ':' || e == [] || !IsWord(e[0])
    ensures Scan(Quote(c) + e) == Chrs(Quote(c)) + Scan(e)
  {
    ChrsQuote(c);
    if IsMeta(c) || c == '/' {
      ScanEscaped(c, e);
    } else {
      ScanCons(c, e);
    }
  }

  /** Scanning a parameter token followed by a non-word character. */
  lemma ScanParam(w: string, e: string)
    requires |w| > 0 && forall i :: 0 <= i < |w| ==> IsWord(w[i])
    requires e == [] || !IsWord(e[0])
    ensures Scan([':'] + (w + e)) == [Param(w)] + Scan(e)
  {
    WordEndAppend(w, e);
    var q := [':'] + (w + e);
    assert q[1..] == w + e;
    assert (w + e)[..|w|] == w && (w + e)[|w|..] == e;
    assert q[1..1 + |w|] == w && q[1 + |w|..] == e;
  }

  lemma EscPiecesCons(p: Piece, ps: seq<Piece>)
    ensures EscPieces([p] + ps) == EscPieces([p]) + EscPieces(ps)
  {
    assert ([p] + ps)[0] == p && ([p] + ps)[1..] == ps;
    assert [p][1..] == [];
  }

  /** The step of `ScanEsc` for a parameter token at the front. */
  lemma ScanEscParam(s: string, w: string, rest: string)
    requires s == [':'] + (w + rest)
    requires |w| > 0 && forall i :: 0 <= i < |w| ==> IsWord(w[i])
    requires rest == [] || !IsWord(rest[0])
    requires Scan(s) == [Param(w)] + Scan(rest)
    requires Scan(Esc(rest)) == EscPieces(Scan(rest))
    ensures Scan(Esc(s)) == EscPieces(Scan(s))
  {
    EscCons(':', w + rest);
    EscWord(w, rest);
    EscHead(rest);
    ScanParam(w, Esc(rest));
    EscPiecesCons(Param(w), Scan(rest));
  }

  /** The step of `ScanEsc` for a literal character at the front. */
  lemma ScanEscChr(s: string, c: char, t: string)
    requires s == [c] + t
    requires c != ':' || t == [] || !IsWord(t[0])
    requires Scan(s) == [Chr(c)] + Scan(t)
    requires Scan(Esc(t)) == EscPieces(Scan(t))
    ensures Scan(Esc(s)) == EscPieces(Scan(s))
  {
    var e := Esc(t);
    EscCons(c, t);
    assert Esc(s) == Quote(c) + e;
    if c == ':' {
      EscHead(t);
    }
    ScanQuote(c, e);
    assert Scan(Esc(s)) == Chrs(Quote(c)) + EscPieces(Scan(t));
    EscPiecesCons(Chr(c), Scan(t));
    EscPiecesOne(c);
  }

  lemma EscPiecesOne(c: char)
    ensures EscPieces([Chr(c)]) == Chrs(Quote(c))
  {
    assert [Chr(c)][1..] == [];
    assert Chrs(Quote(c)) + [] == Chrs(Quote(c));
  }

  /** Scanning the quoted text yields the quoted pieces of the unquoted text. */
  lemma {:induction false} ScanEsc(s: string)
    ensures Scan(Esc(s)) == EscPieces(Scan(s))
    decreases |s|
  {
    if s == [] {
    } else if s[0] == ':' && |s| > 1 && IsWord(s[1]) {
      var w, rest := ParamFront(s);
      ScanEsc(rest);
      ScanEscParam(s, w, rest);
    } else {
      ChrFront(s);
      ScanEsc(s[1..]);
      ScanEscChr(s, s[0], s[1..]);
    }
  }

  /** A parameter token at the front of `s` and what `Scan` makes of it. */
  lemma ParamFront(s: string) returns (w: string, rest: string)
    requires |s| > 1 && s[0] == ':' && IsWord(s[1])
    ensures s == [':'] + (w + rest) && |rest| < |s|
    ensures |w| > 0 && forall i :: 0 <= i < |w| ==> IsWord(w[i])
    ensures rest == [] || !IsWord(rest[0])
    ensures Scan(s) == [Param(w)] + Scan(rest)
  {
    var k := WordEnd(s[1..]);
    w, rest := s[1..1 + k], s[1 + k..];
    assert s == [':'] + (w + rest);
  }

  /** A literal character at the front of `s` and what `Scan` makes of it. */
  lemma ChrFront(s: string)
    requires s != [] && !(s[0] == ':' && |s| > 1 && IsWord(s[1]))
    ensures s == [s[0]] + s[1..]
    ensures s[0] != ':' || s[1..] == [] || !IsWord(s[1..][0])
    ensures Scan(s) == [Chr(s[0])] + Scan(s[1..])
  {
  }

  lemma {:induction false} RawAppend(a: seq<Piece>, b: seq<Piece>)
    ensures Raw(a + b) == Raw(a) + Raw(b)
  {
    if a == [] {
      assert a + b == b;
    } else {
      assert (a + b)[0] == a[0] && (a + b)[1..] == a[1..] + b;
      RawAppend(a[1..], b);
    }
  }

  lemma {:induction false} RawChrs(s: string)
    ensures Raw(Chrs(s)) == s
  {
    if s != [] {
      RawAppend([Chr(s[0])], Chrs(s[1..]));
      RawChrs(s[1..]);
    }
  }

  lemma {:induction false} RawEsc(ps: seq<Piece>)
    ensures Raw(EscPieces(ps)) == PiecesSource(ps)
  {
    if ps != [] {
      var h := match ps[0] case Chr(c) => Chrs(Quote(c)) case Param(n) => [Param(n)];
      RawAppend(h, EscPieces(ps[1..]));
      RawEsc(ps[1..]);
      if ps[0].Chr? {
        RawChrs(Quote(ps[0].c));
      }
    }
  }

  lemma {:induction false} NamesAppend(a: seq<Piece>, b: seq<Piece>)
    ensures ParamNames(a + b) == ParamNames(a) + ParamNames(b)
  {
    if a == [] {
      assert a + b == b;
    } else {
      assert (a + b)[0] == a[0] && (a + b)[1..] == a[1..] + b;
      NamesAppend(a[1..], b);
    }
  }

  lemma {:induction false} NamesChrs(s: string)
    ensures ParamNames(Chrs(s)) == []
  {
    if s != [] {
      NamesAppend([Chr(s[0])], Chrs(s[1..]));
      NamesChrs(s[1..]);
    }
  }

  lemma {:induction false} NamesEsc(ps: seq<Piece>)
    ensures ParamNames(EscPieces(ps)) == ParamNames(ps)
  {
    if ps != [] {
      var h := match ps[0] case Chr(c) => Chrs(Quote(c)) case Param(n) => [Param(n)];
      NamesAppend(h, EscPieces(ps[1..]));
      NamesEsc(ps[1..]);
      if ps[0].Chr? {
        NamesChrs(Quote(ps[0].c));
      }
    }
  }

  // ---------------------------------------------------------------------
  // Matching
  // ---------------------------------------------------------------------

  predicate NoNewline(s: string) {
    forall i :: 0 <= i < |s| ==> s[i] != '\n'
  }

  predicate AllSlashes(s: string) {
    forall i :: 0 <= i < |s| ==> s[i] == '/'
  }

  /**
   * The tail against the rest of the text, first alternative first; `.`
   * does not match a newline and `$` only matches at the end. An
   * alternative whose group does not take part captures the empty string.
   */
  function MatchTail(t: Tail, s: string): Option<seq<string>> {
    match t
    case Slashes => if AllSlashes(s) then Some([]) else None
    case Rest =>
      if |s| >= 2 && s[0] == '/' && NoNewline(s[1..]) then Some([s[1..]])
      else if AllSlashes(s) then Some([""])
      else None
    case Whole => if NoNewline(s) then Some([s]) else None
  }

  /**
   * The captures of the first match of the pieces and tail against `s`
   * that a backtracking matcher finds: a parameter takes the longest run of
   * non-separator characters for which the rest matches.
   */
  function MatchFrom(ps: seq<Piece>, tail: Tail, s: string): Option<seq<string>>
    decreases |ps|, 0, 0
  {
    if ps == [] then MatchTail(tail, s)
    else match ps[0]
      case Chr(c) => if |s| > 0 && s[0] == c then MatchFrom(ps[1..], tail, s[1..]) else None
      case Param(_) => TryParam(ps[1..], tail, s, PathClean.ElementEnd(s))
  }

  /** A parameter taking `s[..k]`, then shorter runs, until the rest matches. */
  function TryParam(ps: seq<Piece>, tail: Tail, s: string, k: nat): Option<seq<string>>
    requires k <= |s|
    decreases |ps|, 1, k
  {
    if k == 0 then None
    else match MatchFrom(ps, tail, s[k..])
      case Some(g) => Some([s[..k]] + g)
      case None => TryParam(ps, tail, s, k - 1)
  }

  /** `FindStringSubmatch` without the whole match: `None` for no match, else the groups. */
  function Match(pat: Pattern, s: string): Option<seq<string>> {
    MatchFrom(pat.pieces, pat.tail, s)
  }

  /** The captures `g` are one way for the tail to match all of `s`. */
  ghost predicate TailFits(t: Tail, s: string, g: seq<string>) {
    match t
    case Slashes => g == [] && AllSlashes(s)
    case Rest =>
      |g| == 1 &&
      ((|s| >= 2 && s[0] == '/' && NoNewline(s[1..]) && g[0] == s[1..]) || (AllSlashes(s) && g[0] == ""))
    case Whole => g == [s] && NoNewline(s)
  }

  /** The captures `g` are one way for the pieces and tail to match all of `s`. */
  ghost predicate Fits(ps: seq<Piece>, tail: Tail, s: string, g: seq<string>)
    decreases |ps|
  {
    if ps == [] then TailFits(tail, s, g)
    else match ps[0]
      case Chr(c) => |s| > 0 && s[0] == c && Fits(ps[1..], tail, s[1..], g)
      case Param(_) =>
        |g| > 0 && 0 < |g[0]| <= |s| && s[..|g[0]|] == g[0] && '/' !in g[0] &&
        Fits(ps[1..], tail, s[|g[0]|..], g[1..])
  }

  lemma TailSound(t: Tail, s: string)
    ensures MatchTail(t, s).Some? ==> TailFits(t, s, MatchTail(t, s).value)
    ensures forall g :: TailFits(t, s, g) ==> MatchTail(t, s).Some?
  {
  }

  /** Every match found is a way for the pattern to match. */
  lemma {:induction false} MatchSound(ps: seq<Piece>, tail: Tail, s: string)
    ensures MatchFrom(ps, tail, s).Some? ==> Fits(ps, tail, s, MatchFrom(ps, tail, s).value)
    decreases |ps|, 0, 0
  {
    if ps == [] {
      TailSound(tail, s);
    } else if ps[0].Chr? {
      if |s| > 0 && s[0] == ps[0].c {
        MatchSound(ps[1..], tail, s[1..]);
      }
    } else {
      TrySound(ps[1..], tail, s, PathClean.ElementEnd(s));
    }
  }

  lemma {:induction false} TrySound(ps: seq<Piece>, tail: Tail, s: string, k: nat)
    requires k <= PathClean.ElementEnd(s)
    ensures var r := TryParam(ps, tail, s, k);
      r.Some? ==>
        |r.value| > 0 && 0 < |r.value[0]| <= k && s[..|r.value[0]|] == r.value[0] && '/' !in r.value[0] &&
        Fits(ps, tail, s[|r.value[0]|..], r.value[1..])
    decreases |ps|, 1, k
  {
    if k > 0 {
      MatchSound(ps, tail, s[k..]);
      if MatchFrom(ps, tail, s[k..]).None? {
        TrySound(ps, tail, s, k - 1);
      } else {
        var g := MatchFrom(ps, tail, s[k..]).value;
        assert ([s[..k]] + g)[1..] == g;
      }
    }
  }

  /** A run without separator never reaches past the first separator. */
  lemma WithinElement(s: string, k: nat)
    requires k <= |s| && '/' !in s[..k]
    ensures k <= PathClean.ElementEnd(s)
  {
  }

  /** Trying every run from `k` down finds one that is at least `j` long when `s[j..]` matches. */
  lemma {:induction false} TryFinds(ps: seq<Piece>, tail: Tail, s: string, k: nat, j: nat)
    requires 0 < j <= k <= |s|
    requires MatchFrom(ps, tail, s[j..]).Some?
    ensures TryParam(ps, tail, s, k).Some?
    ensures |TryParam(ps, tail, s, k).value| > 0 && j <= |TryParam(ps, tail, s, k).value[0]|
    decreases k
  {
    if MatchFrom(ps, tail, s[k..]).None? {
      TryFinds(ps, tail, s, k - 1, j);
    }
  }

  /** Whenever the pattern can match, a match is found. */
  lemma {:induction false} MatchComplete(ps: seq<Piece>, tail: Tail, s: string, g: seq<string>)
    requires Fits(ps, tail, s, g)
    ensures MatchFrom(ps, tail, s).Some?
    decreases |ps|
  {
    if ps == [] {
      TailSound(tail, s);
    } else if ps[0].Chr? {
      MatchComplete(ps[1..], tail, s[1..], g);
    } else {
      var j := |g[0]|;
      MatchComplete(ps[1..], tail, s[j..], g[1..]);
      WithinElement(s, j);
      TryFinds(ps[1..], tail, s, PathClean.ElementEnd(s), j);
    }
  }

  /** A parameter at the front captures the longest run any match allows. */
  lemma Greedy(ps: seq<Piece>, tail: Tail, s: string, g: seq<string>)
    requires ps != [] && ps[0].Param?
    requires Fits(ps, tail, s, g)
    ensures MatchFrom(ps, tail, s).Some?
    ensures |MatchFrom(ps, tail, s).value| > 0 && |g[0]| <= |MatchFrom(ps, tail, s).value[0]|
  {
    var j := |g[0]|;
    MatchComplete(ps[1..], tail, s[j..], g[1..]);
    WithinElement(s, j);
    TryFinds(ps[1..], tail, s, PathClean.ElementEnd(s), j);
  }

  /** One capture per parameter, and one for a wildcard tail. */
  lemma {:induction false} FitsArity(ps: seq<Piece>, tail: Tail, s: string, g: seq<string>)
    requires Fits(ps, tail, s, g)
    ensures |g| == |ParamNames(ps)| + (if tail == Slashes then 0 else 1)
    decreases |ps|
  {
    if ps != [] {
      if ps[0].Chr? {
        FitsArity(ps[1..], tail, s[1..], g);
      } else {
        FitsArity(ps[1..], tail, s[|g[0]|..], g[1..]);
      }
    }
  }

  /**
   * A parameter followed by a separator, by the trailing slashes or by the
   * wildcard tail captures the whole path segment, in every match.
   */
  lemma SegmentCapture(ps: seq<Piece>, tail: Tail, s: string, g: seq<string>)
    requires ps != [] && ps[0].Param?
    requires if |ps| == 1 then tail != Whole else ps[1] == Chr('/')
    requires Fits(ps, tail, s, g)
    ensures g[0] == s[..PathClean.ElementEnd(s)]
  {
    var j := |g[0]|;
    var t := s[j..];
    if |ps| == 1 {
      assert ps[1..] == [];
      assert t == [] || t[0] == '/';
    } else {
      assert t[0] == '/';
    }
    ElementBound(s, j);
    WithinElement(s, j);
  }

  /** A separator, or the end, bounds the first run. */
  lemma ElementBound(s: string, j: nat)
    requires j <= |s| && (j == |s| || s[j] == '/')
    ensures PathClean.ElementEnd(s) <= j
  {
  }

  /** The groups of a match of a compiled template pair up with its names. */
  lemma MatchArity(path: string, s: string)
    requires Match(Compile(path), s).Some?
    ensures |Match(Compile(path), s).value| == |Names(path)|
  {
    var pat := Compile(path);
    MatchSound(pat.pieces, pat.tail, s);
    FitsArity(pat.pieces, pat.tail, s, Match(pat, s).value);
  }

  // ---------------------------------------------------------------------
  // Pairing names with groups, and MatchPath
  // ---------------------------------------------------------------------

  /**
   * The map built by storing `vals[i]` under `names[i]` for `i` ascending:
   * a later occurrence of a name overwrites an earlier one.
   */
  function Bind(names: seq<string>, vals: seq<string>): (m: map<string, string>)
    requires |names| == |vals|
    ensures m.Keys == set n | n in names
    decreases |names|
  {
    if names == [] then map[]
    else Bind(names[..|names| - 1], vals[..|vals| - 1])[names[|names| - 1] := vals[|vals| - 1]]
  }

  /** A name holds the value paired with its last occurrence. */
  lemma {:induction false} BindLast(names: seq<string>, vals: seq<string>, i: nat)
    requires |names| == |vals| && i < |names|
    requires forall j :: i < j < |names| ==> names[j] != names[i]
    ensures Bind(names, vals)[names[i]] == vals[i]
    decreases |names|
  {
    var n := |names| - 1;
    if i < n {
      BindLast(names[..n], vals[..n], i);
    }
  }

  lemma BindSnoc(names: seq<string>, vals: seq<string>, i: nat)
    requires |names| == |vals| && i < |names|
    ensures Bind(names[..i + 1], vals[..i + 1]) == Bind(names[..i], vals[..i])[names[i] := vals[i]]
  {
    assert names[..i + 1][..i] == names[..i];
    assert vals[..i + 1][..i] == vals[..i];
  }

  /** What `MatchPath` returns, with `None` for the nil map. */
  function PathMatch(path: string, pattern: string): (r: Option<map<string, string>>)
    ensures r.Some? <==> Match(Compile(PathClean.Clean(pattern)), path).Some?
    ensures r.Some? ==> r.value.Keys == set n | n in Names(PathClean.Clean(pattern))
  {
    var t := PathClean.Clean(pattern);
    match Match(Compile(t), path)
    case None => None
    case Some(g) => MatchArity(t, path); Some(Bind(Names(t), g))
  }

  /** Every name of the cleaned template is bound to the group of its last occurrence. */
  lemma PathMatchValues(path: string, pattern: string, i: nat)
    requires PathMatch(path, pattern).Some?
    requires i < |Names(PathClean.Clean(pattern))|
    requires var names := Names(PathClean.Clean(pattern));
      forall j :: i < j < |names| ==> names[j] != names[i]
    ensures var t := PathClean.Clean(pattern);
      var g := Match(Compile(t), path).value;
      |g| == |Names(t)| && PathMatch(path, pattern).value[Names(t)[i]] == g[i]
  {
    var t := PathClean.Clean(pattern);
    MatchArity(t, path);
    BindLast(Names(t), Match(Compile(t), path).value, i);
  }

  /**
   * `MatchPath`: clean the template, compile it, match the path and store
   * each group under its name. The guard comparing the number of names with
   * the number of groups can never fire (`MatchArity`).
   */
  method MatchPath(path: string, pattern: string) returns (matched: bool, params: Option<map<string, string>>)
    ensures params == PathMatch(path, pattern)
    ensures matched == params.Some?
  {
    var cleaned;
    ghost var usedBuffer;
    cleaned, usedBuffer := PathClean.CleanPath(pattern);
    var matcher, paramNames := CompilePath(cleaned);
    var res := Match(matcher, path);
    if res.None? {
      return false, None;
    }
    var groups := res.value;
    MatchArity(cleaned, path);
    if |paramNames| == 0 {
      return true, Some(map[]);
    }
    assert |paramNames| == |groups|;
    var m: map<string, string> := map[];
    var idx := 0;
    while idx < |groups|
      invariant 0 <= idx <= |groups|
      invariant m == Bind(paramNames[..idx], groups[..idx])
    {
      BindSnoc(paramNames, groups, idx);
      m := m[paramNames[idx] := groups[idx]];
      idx := idx + 1;
    }
    assert paramNames[..idx] == paramNames && groups[..idx] == groups;
    return true, Some(m);
  }

  // ---------------------------------------------------------------------
  // Examples from the tests
  // ---------------------------------------------------------------------

  /** Text without `:` scans to literal pieces. */
  lemma {:induction false} ScanPlain(x: string, s: string)
    requires ':' !in x
    ensures Scan(x + s) == Chrs(x) + Scan(s)
  {
    if x != [] {
      assert x + s == [x[0]] + (x[1..] + s);
      ScanCons(x[0], x[1..] + s);
      ScanPlain(x[1..], s);
    } else {
      assert x + s == s;
    }
  }

  /** Literal pieces consume exactly their own characters. */
  lemma {:induction false} MatchChrs(x: string, ps: seq<Piece>, tail: Tail, s: string)
    ensures MatchFrom(Chrs(x) + ps, tail, x + s) == MatchFrom(ps, tail, s)
  {
    if x != [] {
      assert (Chrs(x) + ps)[0] == Chr(x[0]) && (Chrs(x) + ps)[1..] == Chrs(x[1..]) + ps;
      assert (x + s)[1..] == x[1..] + s;
      MatchChrs(x[1..], ps, tail, s);
    } else {
      assert Chrs(x) + ps == ps && x + s == s;
    }
  }

  /** A parameter before a separator, or at the end, takes the whole segment. */
  lemma MatchSegment(name: string, ps: seq<Piece>, tail: Tail, v: string, s: string)
    requires |v| > 0 && '/' !in v && (s == [] || s[0] == '/')
    requires MatchFrom(ps, tail, s).Some?
    ensures MatchFrom([Param(name)] + ps, tail, v + s) == Some([v] + MatchFrom(ps, tail, s).value)
  {
    PathClean.ElementEndAppend(v, s);
    WithinElement(v, |v|);
    assert v[..|v|] == v;
    assert ([Param(name)] + ps)[1..] == ps;
    assert (v + s)[|v|..] == s && (v + s)[..|v|] == v;
  }

  /** A rooted template without trailing slash or star is its own canonical form. */
  lemma CanonicalPlain(p: string)
    requires |p| > 1 && p[0] == '/' && p[1] != '/' && p[|p| - 1] != '/' && p[|p| - 1] != '*'
    ensures Canonical(p) == p && TailOf(p) == Slashes
  {
    assert !HasStar(p);
    assert DropTrailingSlashes(p) == p;
    assert StripTail(p) == p;
    var q := p[1..];
    assert DropLeadingSlashes(q) == q;
    assert DropLeadingSlashes(p) == q;
    assert p == [p[0]] + q;
  }

  /** A parameter name the `:(\w+)` pattern takes whole. */
  predicate IsName(n: string) {
    |n| > 0 && forall i :: 0 <= i < |n| ==> IsWord(n[i])
  }

  lemma NameProper(n: string)
    requires IsName(n)
    ensures PathClean.IsProper([':'] + n) && ':' !in n && '/' !in n
  {
    assert ([':'] + n)[0] == ':';
  }

  // The template `/lit/:n1/:n2` against the path `/lit/v1/v2`.

  lemma TwoClean(lit: string, n1: string, n2: string)
    requires PathClean.IsProper(lit) && IsName(n1) && IsName(n2)
    ensures PathClean.Clean("/" + lit + "/:" + n1 + "/:" + n2) == "/" + lit + "/:" + n1 + "/:" + n2
  {
    NameProper(n1);
    NameProper(n2);
    var st := [lit, [':'] + n1, [':'] + n2];
    assert PathClean.Joined(st[2..]) == "/:" + n2;
    assert PathClean.Joined(st[1..]) == "/:" + n1 + "/:" + n2;
    assert PathClean.Render(st) == "/" + lit + "/:" + n1 + "/:" + n2;
    PathClean.CleanRendered(st);
  }

  function TwoPieces(lit: string, n1: string, n2: string): seq<Piece> {
    Chrs("/" + lit + "/") + ([Param(n1)] + (Chrs("/") + [Param(n2)]))
  }

  lemma ScanLastToken(n2: string)
    requires IsName(n2)
    ensures Scan([':'] + n2) == [Param(n2)]
  {
    ScanParam(n2, "");
    assert n2 + "" == n2;
    assert Scan("") == [];
    assert [Param(n2)] + [] == [Param(n2)];
  }

  lemma TwoShape(lit: string, n1: string, n2: string)
    ensures "/" + lit + "/:" + n1 + "/:" + n2 == (("/" + lit + "/") + ":" + n1) + ("/" + ":" + n2)
  {
  }

  lemma TwoCompile(lit: string, n1: string, n2: string)
    requires PathClean.IsProper(lit) && ':' !in lit && IsName(n1) && IsName(n2)
    ensures Compile("/" + lit + "/:" + n1 + "/:" + n2) == Pattern(TwoPieces(lit, n1, n2), Slashes)
    ensures Names("/" + lit + "/:" + n1 + "/:" + n2) == [n1, n2]
  {
    var pre := "/" + lit + "/";
    assert pre[1] == lit[0];
    TwoShape(lit, n1, n2);
    TwoTokenCompile(pre, n1, "/", n2);
  }

  lemma MatchLastParam(n2: string, v2: string)
    requires |v2| > 0 && '/' !in v2
    ensures MatchFrom([Param(n2)], Slashes, v2) == Some([v2])
  {
    assert MatchFrom([], Slashes, "") == Some([]);
    MatchSegment(n2, [], Slashes, v2, "");
    assert v2 + "" == v2;
    assert [Param(n2)] + [] == [Param(n2)];
    assert [v2] + [] == [v2];
  }

  lemma MatchSepParam(n2: string, v2: string)
    requires |v2| > 0 && '/' !in v2
    ensures MatchFrom(Chrs("/") + [Param(n2)], Slashes, "/" + v2) == Some([v2])
  {
    MatchLastParam(n2, v2);
    MatchChrs("/", [Param(n2)], Slashes, v2);
  }

  lemma MatchParamPair(n1: string, n2: string, v1: string, v2: string)
    requires |v1| > 0 && '/' !in v1 && |v2| > 0 && '/' !in v2
    ensures MatchFrom([Param(n1)] + (Chrs("/") + [Param(n2)]), Slashes, v1 + ("/" + v2)) == Some([v1, v2])
  {
    MatchSepParam(n2, v2);
    MatchSegment(n1, Chrs("/") + [Param(n2)], Slashes, v1, "/" + v2);
    assert [v1] + [v2] == [v1, v2];
  }

  lemma TwoMatch(lit: string, n1: string, n2: string, v1: string, v2: string)
    requires |v1| > 0 && '/' !in v1 && |v2| > 0 && '/' !in v2
    ensures MatchFrom(TwoPieces(lit, n1, n2), Slashes, "/" + lit + "/" + v1 + "/" + v2) == Some([v1, v2])
  {
    MatchParamPair(n1, n2, v1, v2);
    assert "/" + lit + "/" + v1 + "/" + v2 == ("/" + lit + "/") + (v1 + ("/" + v2));
    MatchChrs("/" + lit + "/", [Param(n1)] + (Chrs("/") + [Param(n2)]), Slashes, v1 + ("/" + v2));
  }

  lemma BindTwo(n1: string, n2: string, v1: string, v2: string)
    ensures Bind([n1, n2], [v1, v2]) == map[n1 := v1, n2 := v2]
  {
    assert [n1, n2][..1] == [n1];
    assert [v1, v2][..1] == [v1];
    assert [n1][..0] == [] && [v1][..0] == [];
  }

  /** `/lit/v1/v2` against `/lit/:n1/:n2` binds `n1` to `v1` and `n2` to `v2`. */
  lemma MatchTwoParams(lit: string, n1: string, n2: string, v1: string, v2: string)
    requires PathClean.IsProper(lit) && ':' !in lit && IsName(n1) && IsName(n2)
    requires |v1| > 0 && '/' !in v1 && |v2| > 0 && '/' !in v2
    ensures PathMatch("/" + lit + "/" + v1 + "/" + v2, "/" + lit + "/:" + n1 + "/:" + n2) == Some(map[n1 := v1, n2 := v2])
  {
    var t := "/" + lit + "/:" + n1 + "/:" + n2;
    var path := "/" + lit + "/" + v1 + "/" + v2;
    TwoClean(lit, n1, n2);
    TwoCompile(lit, n1, n2);
    TwoMatch(lit, n1, n2, v1, v2);
    BindTwo(n1, n2, v1, v2);
    PathMatchSome(path, t, t, [v1, v2]);
  }

  /** `PathMatch` once the cleaned template and the captures are known. */
  lemma PathMatchSome(path: string, pattern: string, t: string, g: seq<string>)
    requires PathClean.Clean(pattern) == t && Match(Compile(t), path) == Some(g)
    ensures |Names(t)| == |g| && PathMatch(path, pattern) == Some(Bind(Names(t), g))
  {
    MatchArity(t, path);
  }

  /** The two-parameter case of `TestMatchPath`. */
  lemma MatchCmdToolSub()
    ensures PathMatch("/cmd/test/3", "/cmd/:tool/:sub") == Some(map["tool" := "test", "sub" := "3"])
  {
    assert "/cmd/test/3" == "/" + "cmd" + "/" + "test" + "/" + "3";
    assert "/cmd/:tool/:sub" == "/" + "cmd" + "/:" + "tool" + "/:" + "sub";
    MatchTwoParams("cmd", "tool", "sub", "test", "3");
  }

  lemma StarCanonical(lit: string)
    requires PathClean.IsProper(lit)
    ensures Canonical("/" + lit + "/*") == "/" + lit
    ensures TailOf("/" + lit + "/*") == Rest
  {
    var t := "/" + lit + "/*";
    assert HasStar(t);
    assert t[..|t| - 1] == "/" + lit + "/";
    var u := "/" + lit;
    assert ("/" + lit + "/")[..|u|] == u;
    assert DropTrailingSlashes("/" + lit + "/") == DropTrailingSlashes(u);
    assert u[|u| - 1] == lit[|lit| - 1];
    assert DropTrailingSlashes(u) == u;
    assert u[1..] == lit;
    assert DropLeadingSlashes(u) == DropLeadingSlashes(lit) == lit;
  }

  lemma StarMatch(lit: string, v: string)
    requires |v| > 0 && NoNewline(v)
    ensures MatchFrom(Chrs("/" + lit), Rest, "/" + lit + "/" + v) == Some([v])
  {
    assert ("/" + v)[1..] == v;
    assert MatchFrom([], Rest, "/" + v) == Some([v]);
    MatchChrs("/" + lit, [], Rest, "/" + v);
    assert Chrs("/" + lit) + [] == Chrs("/" + lit);
    assert "/" + lit + "/" + v == ("/" + lit) + ("/" + v);
  }

  // The template `/lit/*` against the path `/lit/v`.

  lemma StarClean(lit: string)
    requires PathClean.IsProper(lit)
    ensures PathClean.Clean("/" + lit + "/*") == "/" + lit + "/*"
  {
    var st := [lit, "*"];
    assert PathClean.Joined(st[1..]) == "/*";
    assert PathClean.Render(st) == "/" + lit + "/*";
    PathClean.CleanRendered(st);
  }

  // `/lit/v` against `/lit/*` binds `*` to `v`, without the separator before it.
  lemma MatchStar(lit: string, v: string)
    requires PathClean.IsProper(lit) && ':' !in lit
    requires |v| > 0 && NoNewline(v)
    ensures PathMatch("/" + lit + "/" + v, "/" + lit + "/*") == Some(map["*" := v])
  {
    var t := "/" + lit + "/*";
    var path := "/" + lit + "/" + v;
    StarClean(lit);
    StarCompile(lit);
    StarMatch(lit, v);
    assert Match(Compile(t), path) == Some([v]);
    BindOne("*", v);
    PathMatchSome(path, t, t, [v]);
  }

  lemma BindOne(n: string, v: string)
    ensures Bind([n], [v]) == map[n := v]
  {
    assert [n][..0] == [] && [v][..0] == [];
  }

  // `/lit/*` compiles to the literal `/lit` and the rest-of-path tail, named `*`.
  lemma StarCompile(lit: string)
    requires PathClean.IsProper(lit) && ':' !in lit
    ensures Compile("/" + lit + "/*") == Pattern(Chrs("/" + lit), Rest)
    ensures Names("/" + lit + "/*") == ["*"]
  {
    StarCanonical(lit);
    ScanPlain("/" + lit, "");
    assert ("/" + lit) + "" == "/" + lit;
    assert Scan("") == [];
    assert Chrs("/" + lit) + [] == Chrs("/" + lit);
    NamesChrs("/" + lit);
  }

  /** The wildcard case of `TestMatchPath`. */
  lemma MatchSrcStar()
    ensures PathMatch("/src/aaaaaaaaaaaaaaaa", "/src/*") == Some(map["*" := "aaaaaaaaaaaaaaaa"])
  {
    assert "/src/aaaaaaaaaaaaaaaa" == "/" + "src" + "/" + "aaaaaaaaaaaaaaaa";
    assert "/src/*" == "/" + "src" + "/*";
    MatchStar("src", "aaaaaaaaaaaaaaaa");
  }

  // A template without `:` and without a final `*`, such as `/src/*filepath`, has no names.
  lemma NoNames(path: string)
    requires ':' !in path && !HasStar(path)
    ensures Names(path) == []
  {
    var u := StripTail(path);
    assert u == path[..|u|];
    assert ':' !in u by {
      forall i | 0 <= i < |u| ensures u[i] != ':' {
        assert u[i] == path[i];
      }
    }
    var c := Canonical(path);
    var v := DropLeadingSlashes(u);
    assert v == u[|u| - |v|..];
    assert ':' !in c by {
      forall i | 0 <= i < |c| ensures c[i] != ':' {
        if i > 0 {
          assert c[i] == v[i - 1] == u[|u| - |v| + i - 1];
        }
      }
    }
    ScanPlain(c, "");
    assert c + "" == c;
    NamesChrs(c);
    assert Chrs(c) + [] == Chrs(c);
  }

  // A token may sit in the middle of a segment: `/info/hehe:user/project/:project`.

  /** Two tokens, each after literal text: `pre:n1` followed by `mid:n2`. */
  lemma ScanTwoTokens(pre: string, n1: string, mid: string, n2: string)
    requires ':' !in pre && ':' !in mid && IsName(n1) && IsName(n2)
    requires mid != [] && !IsWord(mid[0])
    ensures Scan((pre + ":" + n1) + (mid + ":" + n2)) ==
      Chrs(pre) + ([Param(n1)] + (Chrs(mid) + [Param(n2)]))
  {
    var tail := mid + ([':'] + n2);
    TwoTokenShape(pre, n1, mid, n2);
    ScanLastToken(n2);
    ScanPlain(mid, [':'] + n2);
    assert Scan(tail) == Chrs(mid) + [Param(n2)];
    ScanParam(n1, tail);
    ScanPlain(pre, [':'] + (n1 + tail));
  }

  lemma TwoTokenShape(pre: string, n1: string, mid: string, n2: string)
    ensures (pre + ":" + n1) + (mid + ":" + n2) == pre + ([':'] + (n1 + (mid + ([':'] + n2))))
  {
  }

  /** The names of the two-token pattern are its two tokens, in order. */
  lemma TwoTokenNames(pre: string, n1: string, mid: string, n2: string)
    ensures ParamNames(Chrs(pre) + ([Param(n1)] + (Chrs(mid) + [Param(n2)]))) == [n1, n2]
  {
    NamesChrs(pre);
    NamesChrs(mid);
    NamesAppend(Chrs(mid), [Param(n2)]);
    NamesAppend([Param(n1)], Chrs(mid) + [Param(n2)]);
    NamesAppend(Chrs(pre), [Param(n1)] + (Chrs(mid) + [Param(n2)]));
  }

  const HeheTemplate: string := "/info/hehe:user/project/:project"

  lemma HeheSplit()
    ensures HeheTemplate == ("/info/hehe" + ":" + "user") + ("/project/" + ":" + "project")
  {
    var a, b := "/info/hehe:user", "/project/:project";
    assert a == "/info/hehe" + ":" + "user";
    assert b == "/project/" + ":" + "project";
    assert HeheTemplate == a + b;
  }

  lemma TwoTokenCompile(pre: string, n1: string, mid: string, n2: string)
    requires ':' !in pre && ':' !in mid && IsName(n1) && IsName(n2)
    requires mid != [] && !IsWord(mid[0])
    requires |pre| > 1 && pre[0] == '/' && pre[1] != '/'
    ensures Compile((pre + ":" + n1) + (mid + ":" + n2)) ==
      Pattern(Chrs(pre) + ([Param(n1)] + (Chrs(mid) + [Param(n2)])), Slashes)
    ensures Names((pre + ":" + n1) + (mid + ":" + n2)) == [n1, n2]
  {
    TwoTokenCanonical(pre, n1, mid, n2);
    ScanTwoTokens(pre, n1, mid, n2);
    TwoTokenNames(pre, n1, mid, n2);
  }

  lemma TwoTokenCanonical(pre: string, n1: string, mid: string, n2: string)
    requires IsName(n2) && |pre| > 1 && pre[0] == '/' && pre[1] != '/'
    ensures var t := (pre + ":" + n1) + (mid + ":" + n2);
      Canonical(t) == t && TailOf(t) == Slashes
  {
    var t := (pre + ":" + n1) + (mid + ":" + n2);
    assert t[0] == '/' && t[1] == pre[1];
    assert t[|t| - 1] == n2[|n2| - 1];
    CanonicalPlain(t);
  }

  /** The mid-segment case of `TestCompilePath`: `hehe` stays literal, `user` is captured after it. */
  lemma MidSegmentParam()
    ensures Compile(HeheTemplate) ==
      Pattern(Chrs("/info/hehe") + ([Param("user")] + (Chrs("/project/") + [Param("project")])), Slashes)
    ensures Names(HeheTemplate) == ["user", "project"]
  {
    HeheSplit();
    TwoTokenCompile("/info/hehe", "user", "/project/", "project");
  }

  // The `/src/*filepath` case of `TestCompilePath`: a star that does not end the template names nothing.
  lemma SrcStarFilepath()
    ensures Names("/src/*filepath") == []
    ensures TailOf("/src/*filepath") == Slashes
  {
    NoNames("/src/*filepath");
  }

  // The remaining `TestCompilePath` cases, each through a generic lemma over symbolic text.

  /** One token after literal text: `pre:n`. */
  lemma OneTokenCompile(pre: string, n: string)
    requires ':' !in pre && IsName(n) && |pre| > 1 && pre[0] == '/' && pre[1] != '/'
    ensures Compile(pre + ":" + n) == Pattern(Chrs(pre) + [Param(n)], Slashes)
    ensures Names(pre + ":" + n) == [n]
  {
    OneTokenCanonical(pre, n);
    OneTokenScan(pre, n);
    OneTokenNames(pre, n);
  }

  lemma OneTokenNames(pre: string, n: string)
    ensures ParamNames(Chrs(pre) + [Param(n)]) == [n]
  {
    NamesChrs(pre);
    NamesAppend(Chrs(pre), [Param(n)]);
    assert ParamNames([Param(n)]) == [n] + ParamNames([]);
  }

  lemma OneTokenCanonical(pre: string, n: string)
    requires IsName(n) && |pre| > 1 && pre[0] == '/' && pre[1] != '/'
    ensures Canonical(pre + ":" + n) == pre + ":" + n && TailOf(pre + ":" + n) == Slashes
  {
    var t := pre + ":" + n;
    assert t[1] == pre[1] && t[|t| - 1] == n[|n| - 1];
    CanonicalPlain(t);
  }

  lemma OneTokenScan(pre: string, n: string)
    requires ':' !in pre && IsName(n)
    ensures Scan(pre + ":" + n) == Chrs(pre) + [Param(n)]
  {
    assert pre + ":" + n == pre + ([':'] + n);
    ScanLastToken(n);
    ScanPlain(pre, [':'] + n);
  }

  const OrderTemplate: string := "/order/:id"

  /** The `/order/:id` case of `TestCompilePath`. */
  lemma OrderId()
    ensures Compile(OrderTemplate) == Pattern(Chrs("/order/") + [Param("id")], Slashes)
    ensures Names(OrderTemplate) == ["id"]
  {
    assert OrderTemplate == "/order/" + ":" + "id";
    OneTokenCompile("/order/", "id");
  }

  /** `PiecesSource` renders a concatenation piece by piece. */
  lemma {:induction false} PiecesSourceAppend(a: seq<Piece>, b: seq<Piece>)
    ensures PiecesSource(a + b) == PiecesSource(a) + PiecesSource(b)
  {
    if a != [] {
      assert (a + b)[0] == a[0] && (a + b)[1..] == a[1..] + b;
      PiecesSourceAppend(a[1..], b);
    } else {
      assert a + b == b;
    }
  }

  lemma {:induction false} ChrsAppend(x: string, y: string)
    ensures Chrs(x + y) == Chrs(x) + Chrs(y)
  {
    if x != [] {
      assert (x + y)[0] == x[0] && (x + y)[1..] == x[1..] + y;
      ChrsAppend(x[1..], y);
    } else {
      assert x + y == y;
    }
  }

  /** Word characters are rendered as themselves. */
  lemma {:induction false} WordSource(x: string)
    requires forall i :: 0 <= i < |x| ==> IsWord(x[i])
    ensures PiecesSource(Chrs(x)) == x
  {
    if x != [] {
      WordSource(x[1..]);
    }
  }

  /** Literal text `/w/`, for a run of word characters `w`, renders as `\/w\/`. */
  lemma WordSegmentSource(w: string)
    requires forall i :: 0 <= i < |w| ==> IsWord(w[i])
    ensures PiecesSource(Chrs("/" + w + "/")) == "\\/" + w + "\\/"
  {
    ChrsAppend("/" + w, "/");
    ChrsAppend("/", w);
    WordSource(w);
    PiecesSourceAppend(Chrs("/") + Chrs(w), Chrs("/"));
    PiecesSourceAppend(Chrs("/"), Chrs(w));
    assert PiecesSource(Chrs("/")) == "\\/";
  }

  /** The `/order/:id` case of `TestCompilePath`, as the expression text it expects. */
  lemma OrderIdSource()
    ensures Source(Compile(OrderTemplate)) == "^\\/order\\/([^\\/]+)\\/*$"
  {
    OrderId();
    OrderPatternSource();
  }

  lemma OrderPatternSource()
    ensures Source(Pattern(Chrs("/order/") + [Param("id")], Slashes)) == "^\\/order\\/([^\\/]+)\\/*$"
  {
    OrderLiteralSplit();
    OneParamSource("order", "id");
    OrderTextSplit();
  }

  lemma OrderLiteralSplit()
    ensures "/" + "order" + "/" == "/order/"
  {
  }

  lemma OrderTextSplit()
    ensures "^" + (("\\/" + "order" + "\\/") + ParamSource) + "\\/*$" == "^\\/order\\/([^\\/]+)\\/*$"
  {
  }

  /** `/w/:n` renders as `^\/w\/`, the capture group, then optional trailing slashes. */
  lemma OneParamSource(w: string, n: string)
    requires |w| > 0 && forall i :: 0 <= i < |w| ==> IsWord(w[i])
    ensures Source(Pattern(Chrs("/" + w + "/") + [Param(n)], Slashes)) ==
      "^" + (("\\/" + w + "\\/") + ParamSource) + "\\/*$"
  {
    var ps := Chrs("/" + w + "/") + [Param(n)];
    PiecesSourceAppend(Chrs("/" + w + "/"), [Param(n)]);
    WordSegmentSource(w);
    assert PiecesSource([Param(n)]) == ParamSource;
    assert PiecesSource(ps) == ("\\/" + w + "\\/") + ParamSource;
    assert Source(Pattern(ps, Slashes)) == "^" + PiecesSource(ps) + TailSource(Slashes);
  }

  const InfoTemplate: string := "/info/:user/project/:project"

  lemma InfoSplit()
    ensures InfoTemplate == ("/info/" + ":" + "user") + ("/project/" + ":" + "project")
  {
    var a, b := "/info/:user", "/project/:project";
    assert a == "/info/" + ":" + "user";
    assert b == "/project/" + ":" + "project";
    assert InfoTemplate == a + b;
  }

  /** The `/info/:user/project/:project` case of `TestCompilePath`. */
  lemma InfoUserProject()
    ensures Compile(InfoTemplate) ==
      Pattern(Chrs("/info/") + ([Param("user")] + (Chrs("/project/") + [Param("project")])), Slashes)
    ensures Names(InfoTemplate) == ["user", "project"]
  {
    InfoSplit();
    TwoTokenCompile("/info/", "user", "/project/", "project");
  }

  // A final `/*` is stripped from a plain rooted template and leaves the rest-of-path tail.
  lemma StarStrip(b: string)
    requires |b| > 1 && b[0] == '/' && b[1] != '/' && b[|b| - 1] != '/' && b[|b| - 1] != '*'
    ensures Canonical(b + "/*") == b && TailOf(b + "/*") == Rest
  {
    var t := b + "/*";
    assert HasStar(t) && t != "*" && t != "/*";
    assert t[..|t| - 1] == b + "/";
    assert (b + "/")[..|b|] == b;
    assert DropTrailingSlashes(b + "/") == DropTrailingSlashes(b);
    assert DropTrailingSlashes(b) == b;
    CanonicalPlain(b);
  }

  // Two tokens followed by `/*`: the tokens are captured, then the rest of the path.
  lemma TwoTokenStarCompile(pre: string, n1: string, mid: string, n2: string)
    requires ':' !in pre && ':' !in mid && IsName(n1) && IsName(n2)
    requires mid != [] && !IsWord(mid[0])
    requires |pre| > 1 && pre[0] == '/' && pre[1] != '/'
    ensures var t := (pre + ":" + n1) + (mid + ":" + n2);
      Compile(t + "/*") == Pattern(Chrs(pre) + ([Param(n1)] + (Chrs(mid) + [Param(n2)])), Rest) &&
      Names(t + "/*") == [n1, n2, "*"]
  {
    TwoTokenStarCanonical(pre, n1, mid, n2);
    ScanTwoTokens(pre, n1, mid, n2);
    TwoTokenNames(pre, n1, mid, n2);
  }

  lemma TwoTokenStarCanonical(pre: string, n1: string, mid: string, n2: string)
    requires IsName(n2) && |pre| > 1 && pre[0] == '/' && pre[1] != '/'
    ensures var t := (pre + ":" + n1) + (mid + ":" + n2);
      Canonical(t + "/*") == t && TailOf(t + "/*") == Rest && HasStar(t + "/*")
  {
    var t := (pre + ":" + n1) + (mid + ":" + n2);
    assert t[0] == '/' && t[1] == pre[1];
    assert t[|t| - 1] == n2[|n2| - 1];
    StarStrip(t);
  }

  const InfoStarTemplate: string := "/info/:user/project/:project/*"

  // The `/info/:user/project/:project/*` case of `TestCompilePath`: the names end in `*`.
  lemma InfoUserProjectStar()
    ensures Compile(InfoStarTemplate) ==
      Pattern(Chrs("/info/") + ([Param("user")] + (Chrs("/project/") + [Param("project")])), Rest)
    ensures Names(InfoStarTemplate) == ["user", "project", "*"]
  {
    InfoSplit();
    assert InfoStarTemplate == InfoTemplate + "/*";
    TwoTokenStarCompile("/info/", "user", "/project/", "project");
  }

  /** Leading slashes in front of a rooted template collapse into its own. */
  lemma {:induction false} DropLeadingAppend(s: string, b: string)
    requires forall i :: 0 <= i < |s| ==> s[i] == '/'
    ensures DropLeadingSlashes(s + b) == DropLeadingSlashes(b)
    decreases |s|
  {
    if s != [] {
      assert (s + b)[1..] == s[1..] + b;
      DropLeadingAppend(s[1..], b);
    } else {
      assert s + b == b;
    }
  }

  /** Extra leading slashes do not change the compiled template. */
  lemma CollapsedCanonical(s: string, b: string)
    requires forall i :: 0 <= i < |s| ==> s[i] == '/'
    requires |b| > 1 && b[0] == '/' && b[1] != '/' && b[|b| - 1] != '/' && b[|b| - 1] != '*'
    ensures Canonical(s + b) == b && TailOf(s + b) == Slashes
  {
    var t := s + b;
    assert t[|t| - 1] == b[|b| - 1];
    assert !HasStar(t) && StripTail(t) == t;
    DropLeadingAppend(s, b);
    CanonicalPlain(b);
    assert DropLeadingSlashes(b) == b[1..];
    assert b == "/" + b[1..];
  }

  /** Two tokens and then literal text without `:` (e.g. a quoted `*`). */
  lemma ScanTwoTokensThen(pre: string, n1: string, mid: string, n2: string, post: string)
    requires ':' !in pre && ':' !in mid && ':' !in post && IsName(n1) && IsName(n2)
    requires mid != [] && !IsWord(mid[0]) && post != [] && !IsWord(post[0])
    ensures Scan((pre + ":" + n1) + (mid + ":" + n2) + post) ==
      Chrs(pre) + ([Param(n1)] + (Chrs(mid) + ([Param(n2)] + Chrs(post))))
  {
    var last := [':'] + (n2 + post);
    var tail := mid + last;
    assert (pre + ":" + n1) + (mid + ":" + n2) + post == pre + ([':'] + (n1 + tail));
    ScanPlain(post, "");
    assert post + "" == post && Chrs(post) + [] == Chrs(post);
    ScanParam(n2, post);
    ScanPlain(mid, last);
    ScanParam(n1, tail);
    ScanPlain(pre, [':'] + (n1 + tail));
  }

  lemma TwoTokensThenNames(pre: string, n1: string, mid: string, n2: string, post: string)
    ensures ParamNames(Chrs(pre) + ([Param(n1)] + (Chrs(mid) + ([Param(n2)] + Chrs(post))))) == [n1, n2]
  {
    NamesChrs(pre);
    NamesChrs(mid);
    NamesChrs(post);
    NamesAppend([Param(n2)], Chrs(post));
    NamesAppend(Chrs(mid), [Param(n2)] + Chrs(post));
    NamesAppend([Param(n1)], Chrs(mid) + ([Param(n2)] + Chrs(post)));
    NamesAppend(Chrs(pre), [Param(n1)] + (Chrs(mid) + ([Param(n2)] + Chrs(post))));
  }

  /** Extra leading slashes, two tokens and then literal text: the slashes collapse and the text stays literal. */
  lemma TwoTokensThenCompile(sl: string, pre: string, n1: string, mid: string, n2: string, post: string)
    requires forall i :: 0 <= i < |sl| ==> sl[i] == '/'
    requires ':' !in pre && ':' !in mid && ':' !in post && IsName(n1) && IsName(n2)
    requires mid != [] && !IsWord(mid[0]) && post != [] && !IsWord(post[0])
    requires |pre| > 1 && pre[0] == '/' && pre[1] != '/'
    requires post[|post| - 1] != '/' && post[|post| - 1] != '*'
    ensures var t := sl + ((pre + ":" + n1) + (mid + ":" + n2) + post);
      Compile(t) == Pattern(Chrs(pre) + ([Param(n1)] + (Chrs(mid) + ([Param(n2)] + Chrs(post)))), Slashes) &&
      Names(t) == [n1, n2]
  {
    TwoTokensThenCanonical(sl, pre, n1, mid, n2, post);
    ScanTwoTokensThen(pre, n1, mid, n2, post);
    TwoTokensThenNames(pre, n1, mid, n2, post);
  }

  lemma TwoTokensThenCanonical(sl: string, pre: string, n1: string, mid: string, n2: string, post: string)
    requires forall i :: 0 <= i < |sl| ==> sl[i] == '/'
    requires |pre| > 1 && pre[0] == '/' && pre[1] != '/'
    requires post != [] && post[|post| - 1] != '/' && post[|post| - 1] != '*'
    ensures var b := (pre + ":" + n1) + (mid + ":" + n2) + post;
      Canonical(sl + b) == b && TailOf(sl + b) == Slashes && !HasStar(sl + b)
  {
    var b := (pre + ":" + n1) + (mid + ":" + n2) + post;
    assert b[0] == '/' && b[1] == pre[1];
    assert b[|b| - 1] == post[|post| - 1];
    CollapsedCanonical(sl, b);
  }

  const AaaaaTemplate: string := "////aaaaa/:var1/:var2/*pathname"

  lemma AaaaaSplit()
    ensures AaaaaTemplate == "///" + ((("/aaaaa/" + ":" + "var1") + ("/" + ":" + "var2")) + "/*pathname")
  {
    var a, b := "/aaaaa/:var1", "/:var2";
    assert a == "/aaaaa/" + ":" + "var1";
    assert b == "/" + ":" + "var2";
    assert AaaaaTemplate == "///" + ((a + b) + "/*pathname");
  }

  /**
   * The first case of `TestCompilePath`: the leading slashes collapse to one,
   * and a `*` that does not end the template is a literal character.
   */
  lemma CollapsedLeadingSlashes()
    ensures Compile(AaaaaTemplate) ==
      Pattern(Chrs("/aaaaa/") + ([Param("var1")] + (Chrs("/") + ([Param("var2")] + Chrs("/*pathname")))), Slashes)
    ensures Names(AaaaaTemplate) == ["var1", "var2"]
  {
    AaaaaSplit();
    TwoTokensThenCompile("///", "/aaaaa/", "var1", "/", "var2", "/*pathname");
  }

  // The remaining `TestMatchPath` cases, each through a generic lemma.

  /** `/a/:n` against `/a/v` binds `n` to `v`. */
  lemma MatchOneParam(a: string, n: string, v: string)
    requires PathClean.IsProper(a) && ':' !in a && IsName(n)
    requires |v| > 0 && '/' !in v
    ensures PathMatch("/" + a + "/" + v, "/" + a + "/:" + n) == Some(map[n := v])
  {
    var t := "/" + a + "/:" + n;
    var path := "/" + a + "/" + v;
    var pre := "/" + a + "/";
    OneClean(a, n);
    assert t == pre + ":" + n && pre[1] == a[0];
    OneTokenCompile(pre, n);
    OneMatch(pre, n, v);
    assert path == pre + v;
    BindOne(n, v);
    PathMatchSome(path, t, t, [v]);
  }

  lemma OneClean(a: string, n: string)
    requires PathClean.IsProper(a) && IsName(n)
    ensures PathClean.Clean("/" + a + "/:" + n) == "/" + a + "/:" + n
  {
    NameProper(n);
    var st := [a, [':'] + n];
    assert PathClean.Joined(st[1..]) == "/:" + n;
    assert PathClean.Render(st) == "/" + a + "/:" + n;
    PathClean.CleanRendered(st);
  }

  lemma OneMatch(pre: string, n: string, v: string)
    requires |v| > 0 && '/' !in v
    ensures MatchFrom(Chrs(pre) + [Param(n)], Slashes, pre + v) == Some([v])
  {
    MatchLastParam(n, v);
    MatchChrs(pre, [Param(n)], Slashes, v);
  }

  /** The one-parameter case of `TestMatchPath`. */
  lemma MatchCmdTool()
    ensures PathMatch("/cmd/test", "/cmd/:tool") == Some(map["tool" := "test"])
  {
    assert "/cmd/test" == "/" + "cmd" + "/" + "test";
    assert "/cmd/:tool" == "/" + "cmd" + "/:" + "tool";
    MatchOneParam("cmd", "tool", "test");
  }

  /** `/a/:n/b` against `/a/v/b`: a literal segment after the parameter must follow it exactly. */
  lemma MatchParamThenLiteral(a: string, n: string, b: string, v: string)
    requires PathClean.IsProper(a) && ':' !in a && IsName(n)
    requires PathClean.IsProper(b) && ':' !in b && b[|b| - 1] != '*'
    requires |v| > 0 && '/' !in v
    ensures PathMatch("/" + a + "/" + v + "/" + b, "/" + a + "/:" + n + "/" + b) == Some(map[n := v])
  {
    var t := "/" + a + "/:" + n + "/" + b;
    var path := "/" + a + "/" + v + "/" + b;
    ThenClean(a, n, b);
    ThenCompile(a, n, b);
    ThenMatchPath(a, n, b, v);
    BindOne(n, v);
    PathMatchSome(path, t, t, [v]);
  }

  function ThenPieces(a: string, n: string, b: string): seq<Piece> {
    Chrs("/" + a + "/") + ([Param(n)] + Chrs("/" + b))
  }

  lemma ThenCompile(a: string, n: string, b: string)
    requires PathClean.IsProper(a) && ':' !in a && IsName(n)
    requires PathClean.IsProper(b) && ':' !in b && b[|b| - 1] != '*'
    ensures Compile("/" + a + "/:" + n + "/" + b) == Pattern(ThenPieces(a, n, b), Slashes)
    ensures Names("/" + a + "/:" + n + "/" + b) == [n]
  {
    var pre, post := "/" + a + "/", "/" + b;
    assert "/" + a + "/:" + n + "/" + b == pre + ":" + n + post;
    assert pre[1] == a[0] && post[|post| - 1] == b[|b| - 1];
    OneTokenThenCompile(pre, n, post);
  }

  lemma ThenMatchPath(a: string, n: string, b: string, v: string)
    requires |v| > 0 && '/' !in v
    ensures MatchFrom(ThenPieces(a, n, b), Slashes, "/" + a + "/" + v + "/" + b) == Some([v])
  {
    assert "/" + a + "/" + v + "/" + b == ("/" + a + "/") + (v + ("/" + b));
    ThenMatch("/" + a + "/", n, "/" + b, v);
  }

  lemma ThenClean(a: string, n: string, b: string)
    requires PathClean.IsProper(a) && IsName(n) && PathClean.IsProper(b)
    ensures PathClean.Clean("/" + a + "/:" + n + "/" + b) == "/" + a + "/:" + n + "/" + b
  {
    NameProper(n);
    var st := [a, [':'] + n, b];
    assert PathClean.Joined(st[2..]) == "/" + b;
    assert PathClean.Joined(st[1..]) == "/:" + n + "/" + b;
    assert PathClean.Render(st) == "/" + a + "/:" + n + "/" + b;
    PathClean.CleanRendered(st);
  }

  /** One token between literal texts: `pre:n` then `post`. */
  lemma OneTokenThenCompile(pre: string, n: string, post: string)
    requires ':' !in pre && ':' !in post && IsName(n) && |pre| > 1 && pre[0] == '/' && pre[1] != '/'
    requires post != [] && !IsWord(post[0]) && post[|post| - 1] != '/' && post[|post| - 1] != '*'
    ensures Compile(pre + ":" + n + post) == Pattern(Chrs(pre) + ([Param(n)] + Chrs(post)), Slashes)
    ensures Names(pre + ":" + n + post) == [n]
  {
    OneTokenThenCanonical(pre, n, post);
    OneTokenThenScan(pre, n, post);
    OneTokenThenNames(pre, n, post);
  }

  lemma OneTokenThenCanonical(pre: string, n: string, post: string)
    requires |pre| > 1 && pre[0] == '/' && pre[1] != '/'
    requires post != [] && post[|post| - 1] != '/' && post[|post| - 1] != '*'
    ensures Canonical(pre + ":" + n + post) == pre + ":" + n + post
    ensures TailOf(pre + ":" + n + post) == Slashes
  {
    var t := pre + ":" + n + post;
    assert t[1] == pre[1] && t[|t| - 1] == post[|post| - 1];
    CanonicalPlain(t);
  }

  lemma OneTokenThenScan(pre: string, n: string, post: string)
    requires ':' !in pre && ':' !in post && IsName(n) && post != [] && !IsWord(post[0])
    ensures Scan(pre + ":" + n + post) == Chrs(pre) + ([Param(n)] + Chrs(post))
  {
    assert pre + ":" + n + post == pre + ([':'] + (n + post));
    ScanPlain(post, "");
    assert post + "" == post && Chrs(post) + [] == Chrs(post);
    ScanParam(n, post);
    ScanPlain(pre, [':'] + (n + post));
  }

  lemma OneTokenThenNames(pre: string, n: string, post: string)
    ensures ParamNames(Chrs(pre) + ([Param(n)] + Chrs(post))) == [n]
  {
    NamesChrs(pre);
    NamesChrs(post);
    NamesAppend([Param(n)], Chrs(post));
    NamesAppend(Chrs(pre), [Param(n)] + Chrs(post));
    assert ParamNames([Param(n)]) == [n] + ParamNames([]);
  }

  lemma ThenMatch(pre: string, n: string, post: string, v: string)
    requires |v| > 0 && '/' !in v && post != [] && post[0] == '/'
    ensures MatchFrom(Chrs(pre) + ([Param(n)] + Chrs(post)), Slashes, pre + (v + post)) == Some([v])
  {
    MatchChrs(post, [], Slashes, "");
    assert Chrs(post) + [] == Chrs(post) && post + "" == post;
    assert MatchFrom([], Slashes, "") == Some([]);
    MatchSegment(n, Chrs(post), Slashes, v, post);
    assert [v] + [] == [v];
    MatchChrs(pre, [Param(n)] + Chrs(post), Slashes, v + post);
  }

  /** The parameter-then-literal case of `TestMatchPath`. */
  lemma MatchInfoNamePublic()
    ensures PathMatch("/info/gordon/public", "/info/:name/public") == Some(map["name" := "gordon"])
  {
    assert "/info/gordon/public" == "/" + "info" + "/" + "gordon" + "/" + "public";
    assert "/info/:name/public" == "/" + "info" + "/:" + "name" + "/" + "public";
    MatchParamThenLiteral("info", "name", "public", "gordon");
  }

  /** `/a/:n1/b/:n2` against `/a/v1/b/v2` binds both parameters. */
  lemma MatchParamsAroundLiteral(a: string, n1: string, b: string, n2: string, v1: string, v2: string)
    requires PathClean.IsProper(a) && ':' !in a && PathClean.IsProper(b) && ':' !in b
    requires IsName(n1) && IsName(n2)
    requires |v1| > 0 && '/' !in v1 && |v2| > 0 && '/' !in v2
    ensures PathMatch("/" + a + "/" + v1 + "/" + b + "/" + v2, "/" + a + "/:" + n1 + "/" + b + "/:" + n2) ==
      Some(map[n1 := v1, n2 := v2])
  {
    var t := "/" + a + "/:" + n1 + "/" + b + "/:" + n2;
    var path := "/" + a + "/" + v1 + "/" + b + "/" + v2;
    AroundClean(a, n1, b, n2);
    AroundCompile(a, n1, b, n2);
    AroundMatchPath(a, n1, b, n2, v1, v2);
    BindTwo(n1, n2, v1, v2);
    PathMatchSome(path, t, t, [v1, v2]);
  }

  function AroundPieces(a: string, n1: string, b: string, n2: string): seq<Piece> {
    Chrs("/" + a + "/") + ([Param(n1)] + (Chrs("/" + b + "/") + [Param(n2)]))
  }

  lemma AroundCompile(a: string, n1: string, b: string, n2: string)
    requires PathClean.IsProper(a) && ':' !in a && PathClean.IsProper(b) && ':' !in b
    requires IsName(n1) && IsName(n2)
    ensures Compile("/" + a + "/:" + n1 + "/" + b + "/:" + n2) == Pattern(AroundPieces(a, n1, b, n2), Slashes)
    ensures Names("/" + a + "/:" + n1 + "/" + b + "/:" + n2) == [n1, n2]
  {
    var pre, mid := "/" + a + "/", "/" + b + "/";
    assert "/" + a + "/:" + n1 + "/" + b + "/:" + n2 == (pre + ":" + n1) + (mid + ":" + n2);
    assert pre[1] == a[0];
    TwoTokenCompile(pre, n1, mid, n2);
  }

  lemma AroundMatchPath(a: string, n1: string, b: string, n2: string, v1: string, v2: string)
    requires |v1| > 0 && '/' !in v1 && |v2| > 0 && '/' !in v2
    ensures MatchFrom(AroundPieces(a, n1, b, n2), Slashes, "/" + a + "/" + v1 + "/" + b + "/" + v2) == Some([v1, v2])
  {
    assert "/" + a + "/" + v1 + "/" + b + "/" + v2 == ("/" + a + "/") + (v1 + (("/" + b + "/") + v2));
    AroundMatch("/" + a + "/", n1, "/" + b + "/", n2, v1, v2);
  }

  lemma AroundClean(a: string, n1: string, b: string, n2: string)
    requires PathClean.IsProper(a) && IsName(n1) && PathClean.IsProper(b) && IsName(n2)
    ensures PathClean.Clean("/" + a + "/:" + n1 + "/" + b + "/:" + n2) == "/" + a + "/:" + n1 + "/" + b + "/:" + n2
  {
    NameProper(n1);
    NameProper(n2);
    var st := [a, [':'] + n1, b, [':'] + n2];
    assert PathClean.Joined(st[3..]) == "/:" + n2;
    assert PathClean.Joined(st[2..]) == "/" + b + "/:" + n2;
    assert PathClean.Joined(st[1..]) == "/:" + n1 + "/" + b + "/:" + n2;
    assert PathClean.Render(st) == "/" + a + "/:" + n1 + "/" + b + "/:" + n2;
    PathClean.CleanRendered(st);
  }

  lemma AroundMatch(pre: string, n1: string, mid: string, n2: string, v1: string, v2: string)
    requires |v1| > 0 && '/' !in v1 && |v2| > 0 && '/' !in v2 && mid != [] && mid[0] == '/'
    ensures MatchFrom(Chrs(pre) + ([Param(n1)] + (Chrs(mid) + [Param(n2)])), Slashes, pre + (v1 + (mid + v2))) ==
      Some([v1, v2])
  {
    MatchLastParam(n2, v2);
    MatchChrs(mid, [Param(n2)], Slashes, v2);
    MatchSegment(n1, Chrs(mid) + [Param(n2)], Slashes, v1, mid + v2);
    assert [v1] + [v2] == [v1, v2];
    MatchChrs(pre, [Param(n1)] + (Chrs(mid) + [Param(n2)]), Slashes, v1 + (mid + v2));
  }

  /** The two-parameters-around-a-literal case of `TestMatchPath`. */
  lemma MatchInfoNameProjectLang()
    ensures PathMatch("/info/gordon/project/go", "/info/:name/project/:lang") ==
      Some(map["name" := "gordon", "lang" := "go"])
  {
    InfoProjectPathSplit();
    InfoProjectTemplateSplit();
    MatchParamsAroundLiteral("info", "name", "project", "lang", "gordon", "go");
  }

  lemma InfoProjectPathSplit()
    ensures "/info/gordon/project/go" == "/" + "info" + "/" + "gordon" + "/" + "project" + "/" + "go"
  {
  }

  lemma InfoProjectTemplateSplit()
    ensures "/info/:name/project/:lang" == "/" + "info" + "/:" + "name" + "/" + "project" + "/:" + "lang"
  {
  }

  // The `TestCompilePath` cases as the expression text they expect.

  /** A two-token pattern renders its literal runs, two capture groups and its tail, in order. */
  lemma TwoTokenSource(pre: string, n1: string, mid: string, n2: string, tail: Tail)
    ensures Source(Pattern(Chrs(pre) + ([Param(n1)] + (Chrs(mid) + [Param(n2)])), tail)) ==
      "^" + (PiecesSource(Chrs(pre)) + (ParamSource + (PiecesSource(Chrs(mid)) + ParamSource))) + TailSource(tail)
  {
    PiecesSourceAppend(Chrs(mid), [Param(n2)]);
    PiecesSourceAppend([Param(n1)], Chrs(mid) + [Param(n2)]);
    PiecesSourceAppend(Chrs(pre), [Param(n1)] + (Chrs(mid) + [Param(n2)]));
    assert PiecesSource([Param(n1)]) == ParamSource;
    assert PiecesSource([Param(n2)]) == ParamSource;
  }

  lemma SlashSource()
    ensures PiecesSource(Chrs("/")) == "\\/"
  {
  }

  /** The `/cmd/:tool/:sub` case of `TestCompilePath`. */
  lemma CmdToolSubSource()
    ensures Source(Compile("/cmd/:tool/:sub")) == "^\\/cmd\\/([^\\/]+)\\/([^\\/]+)\\/*$"
  {
    CmdSplit();
    TwoCompile("cmd", "tool", "sub");
    CmdPatternSource();
  }

  lemma CmdSplit()
    ensures "/cmd/:tool/:sub" == "/" + "cmd" + "/:" + "tool" + "/:" + "sub"
  {
  }

  lemma CmdPatternSource()
    ensures Source(Pattern(TwoPieces("cmd", "tool", "sub"), Slashes)) == "^\\/cmd\\/([^\\/]+)\\/([^\\/]+)\\/*$"
  {
    TwoTokenSource("/" + "cmd" + "/", "tool", "/", "sub", Slashes);
    WordSegmentSource("cmd");
    SlashSource();
    CmdTextSplit();
  }

  lemma CmdTextSplit()
    ensures "^" + (("\\/" + "cmd" + "\\/") + (ParamSource + ("\\/" + ParamSource))) + "\\/*$" ==
      "^\\/cmd\\/([^\\/]+)\\/([^\\/]+)\\/*$"
  {
  }

  lemma InfoProjectLiteralSplit()
    ensures "/" + "info" + "/" == "/info/" && "/" + "project" + "/" == "/project/"
  {
  }

  /** `/a/`, a capture, `/b/`, a capture, then the tail `t`, for words `a` and `b`. */
  lemma WordsTwoTokenSource(a: string, n1: string, b: string, n2: string, t: Tail)
    requires forall i :: 0 <= i < |a| ==> IsWord(a[i])
    requires forall i :: 0 <= i < |b| ==> IsWord(b[i])
    ensures Source(Pattern(Chrs("/" + a + "/") + ([Param(n1)] + (Chrs("/" + b + "/") + [Param(n2)])), t)) ==
      "^" + (("\\/" + a + "\\/") + (ParamSource + (("\\/" + b + "\\/") + ParamSource))) + TailSource(t)
  {
    TwoTokenSource("/" + a + "/", n1, "/" + b + "/", n2, t);
    WordSegmentSource(a);
    WordSegmentSource(b);
  }

  lemma InfoPatternSource(t: Tail)
    ensures Source(Pattern(Chrs("/info/") + ([Param("user")] + (Chrs("/project/") + [Param("project")])), t)) ==
      "^" + (("\\/" + "info" + "\\/") + (ParamSource + (("\\/" + "project" + "\\/") + ParamSource))) + TailSource(t)
  {
    InfoProjectLiteralSplit();
    WordsTwoTokenSource("info", "user", "project", "project", t);
  }

  /** The `/info/:user/project/:project` case of `TestCompilePath`. */
  lemma InfoUserProjectSource()
    ensures Source(Compile(InfoTemplate)) == "^" + "\\/info\\/" + "([^\\/]+)" + "\\/project\\/" + "([^\\/]+)" + "\\/*$"
  {
    assert TailSource(Slashes) == "\\/*$";
    InfoUserProject();
    InfoPatternSource(Slashes);
    InfoTextSplit();
  }

  lemma InfoTextSplit()
    ensures "^" + (("\\/" + "info" + "\\/") + (ParamSource + (("\\/" + "project" + "\\/") + ParamSource))) + "\\/*$" ==
      "^" + "\\/info\\/" + "([^\\/]+)" + "\\/project\\/" + "([^\\/]+)" + "\\/*$"
  {
    InfoChunks();
    RegroupTwo("^", "\\/info\\/", ParamSource, "\\/project\\/", ParamSource, "\\/*$");
  }

  lemma InfoChunks()
    ensures "\\/" + "info" + "\\/" == "\\/info\\/" && "\\/" + "project" + "\\/" == "\\/project\\/"
  {
  }

  /** Regrouping a concatenation of six parts. */
  lemma RegroupTwo(h: string, a: string, p: string, b: string, q: string, t: string)
    ensures h + (a + (p + (b + q))) + t == h + a + p + b + q + t
  {
  }

  // The `/info/:user/project/:project/*` case of `TestCompilePath`: the tail captures the rest.
  lemma InfoUserProjectStarSource()
    ensures Source(Compile(InfoStarTemplate)) == "^" + "\\/info\\/" + "([^\\/]+)" + "\\/project\\/" + "([^\\/]+)" + "(?:\\/(.+)|\\/*)$"
  {
    assert TailSource(Rest) == "(?:\\/(.+)|\\/*)$";
    InfoUserProjectStar();
    InfoPatternSource(Rest);
    InfoStarTextSplit();
  }

  lemma InfoStarTextSplit()
    ensures "^" + (("\\/" + "info" + "\\/") + (ParamSource + (("\\/" + "project" + "\\/") + ParamSource))) + "(?:\\/(.+)|\\/*)$" ==
      "^" + "\\/info\\/" + "([^\\/]+)" + "\\/project\\/" + "([^\\/]+)" + "(?:\\/(.+)|\\/*)$"
  {
    InfoChunks();
    RegroupTwo("^", "\\/info\\/", ParamSource, "\\/project\\/", ParamSource, "(?:\\/(.+)|\\/*)$");
  }

  /** The `/info/hehe:user/project/:project` case of `TestCompilePath`: `hehe` stays literal. */
  lemma MidSegmentParamSource()
    ensures Source(Compile(HeheTemplate)) == "^" + "\\/info\\/hehe" + "([^\\/]+)" + "\\/project\\/" + "([^\\/]+)" + "\\/*$"
  {
    MidSegmentParam();
    HehePatternSource();
  }

  lemma HehePatternSource()
    ensures Source(Pattern(Chrs("/info/hehe") + ([Param("user")] + (Chrs("/project/") + [Param("project")])), Slashes)) ==
      "^" + "\\/info\\/hehe" + "([^\\/]+)" + "\\/project\\/" + "([^\\/]+)" + "\\/*$"
  {
    assert TailSource(Slashes) == "\\/*$";
    HeheLiteralSplit();
    WordsPrefixTwoTokenSource("info", "hehe", "user", "project", "project", Slashes);
    HeheTextSplit();
  }

  lemma HeheLiteralSplit()
    ensures "/" + "info" + "/" + "hehe" == "/info/hehe" && "/" + "project" + "/" == "/project/"
  {
  }

  /** `/a/h`, a capture, `/b/`, a capture, then the tail `t`, for words `a`, `h` and `b`. */
  lemma WordsPrefixTwoTokenSource(a: string, h: string, n1: string, b: string, n2: string, t: Tail)
    requires forall i :: 0 <= i < |a| ==> IsWord(a[i])
    requires forall i :: 0 <= i < |h| ==> IsWord(h[i])
    requires forall i :: 0 <= i < |b| ==> IsWord(b[i])
    ensures Source(Pattern(Chrs("/" + a + "/" + h) + ([Param(n1)] + (Chrs("/" + b + "/") + [Param(n2)])), t)) ==
      "^" + ((("\\/" + a + "\\/") + h) + (ParamSource + (("\\/" + b + "\\/") + ParamSource))) + TailSource(t)
  {
    TwoTokenSource("/" + a + "/" + h, n1, "/" + b + "/", n2, t);
    WordPrefixSource(a, h);
    WordSegmentSource(b);
  }

  lemma WordPrefixSource(a: string, h: string)
    requires forall i :: 0 <= i < |a| ==> IsWord(a[i])
    requires forall i :: 0 <= i < |h| ==> IsWord(h[i])
    ensures PiecesSource(Chrs("/" + a + "/" + h)) == ("\\/" + a + "\\/") + h
  {
    ChrsAppend("/" + a + "/", h);
    PiecesSourceAppend(Chrs("/" + a + "/"), Chrs(h));
    WordSegmentSource(a);
    WordSource(h);
  }

  lemma HeheTextSplit()
    ensures "^" + ((("\\/" + "info" + "\\/") + "hehe") + (ParamSource + (("\\/" + "project" + "\\/") + ParamSource))) + "\\/*$" ==
      "^" + "\\/info\\/hehe" + "([^\\/]+)" + "\\/project\\/" + "([^\\/]+)" + "\\/*$"
  {
    InfoChunks();
    assert "\\/info\\/" + "hehe" == "\\/info\\/hehe";
    RegroupTwo("^", "\\/info\\/hehe", ParamSource, "\\/project\\/", ParamSource, "\\/*$");
  }

  /** A literal `*` is escaped. */
  lemma StarSource(w: string)
    requires forall i :: 0 <= i < |w| ==> IsWord(w[i])
    ensures PiecesSource(Chrs("*" + w)) == "\\*" + w
  {
    ChrsAppend("*", w);
    PiecesSourceAppend(Chrs("*"), Chrs(w));
    WordSource(w);
    assert PiecesSource(Chrs("*")) == "\\*";
  }

  // `/a/`, a capture, `/`, a capture, then the literal `/*w` and the tail `t`, for words `a` and `w`.
  lemma WordsTwoTokenThenSource(a: string, n1: string, n2: string, w: string, t: Tail)
    requires forall i :: 0 <= i < |a| ==> IsWord(a[i])
    requires forall i :: 0 <= i < |w| ==> IsWord(w[i])
    ensures Source(Pattern(Chrs("/" + a + "/") + ([Param(n1)] + (Chrs("/") + ([Param(n2)] + Chrs("/*" + w)))), t)) ==
      "^" + (("\\/" + a + "\\/") + (ParamSource + ("\\/" + (ParamSource + ("\\/" + ("\\*" + w)))))) + TailSource(t)
  {
    var post := Chrs("/*" + w);
    assert "/*" + w == "/" + ("*" + w);
    ChrsAppend("/", "*" + w);
    StarSource(w);
    SlashSource();
    PiecesSourceAppend(Chrs("/"), Chrs("*" + w));
    PiecesSourceAppend([Param(n2)], post);
    PiecesSourceAppend(Chrs("/"), [Param(n2)] + post);
    PiecesSourceAppend([Param(n1)], Chrs("/") + ([Param(n2)] + post));
    PiecesSourceAppend(Chrs("/" + a + "/"), [Param(n1)] + (Chrs("/") + ([Param(n2)] + post)));
    assert PiecesSource([Param(n1)]) == ParamSource;
    assert PiecesSource([Param(n2)]) == ParamSource;
    WordSegmentSource(a);
  }

  lemma AaaaaLiteralSplit()
    ensures "/" + "aaaaa" + "/" == "/aaaaa/" && "/*" + "pathname" == "/*pathname"
  {
  }

  lemma AaaaaTextSplit()
    ensures "^" + (("\\/" + "aaaaa" + "\\/") + (ParamSource + ("\\/" + (ParamSource + ("\\/" + ("\\*" + "pathname")))))) +
      "\\/*$" == "^" + "\\/aaaaa\\/" + "([^\\/]+)" + "\\/" + "([^\\/]+)" + "\\/\\*pathname" + "\\/*$"
  {
    assert "\\/" + "aaaaa" + "\\/" == "\\/aaaaa\\/";
    assert "\\/" + ("\\*" + "pathname") == "\\/\\*pathname";
    RegroupThree("^", "\\/aaaaa\\/", ParamSource, "\\/", ParamSource, "\\/\\*pathname", "\\/*$");
  }

  /** Regrouping a concatenation of seven parts. */
  lemma RegroupThree(h: string, a: string, p: string, b: string, q: string, c: string, t: string)
    ensures h + (a + (p + (b + (q + c)))) + t == h + a + p + b + q + c + t
  {
  }

  lemma AaaaaPatternSource()
    ensures Source(Pattern(Chrs("/aaaaa/") + ([Param("var1")] + (Chrs("/") + ([Param("var2")] + Chrs("/*pathname")))), Slashes)) ==
      "^" + "\\/aaaaa\\/" + "([^\\/]+)" + "\\/" + "([^\\/]+)" + "\\/\\*pathname" + "\\/*$"
  {
    assert TailSource(Slashes) == "\\/*$";
    AaaaaLiteralSplit();
    WordsTwoTokenThenSource("aaaaa", "var1", "var2", "pathname", Slashes);
    AaaaaTextSplit();
  }

  // The `////aaaaa/:var1/:var2/*pathname` case of `TestCompilePath`: the extra leading slashes are dropped.
  lemma CollapsedLeadingSlashesSource()
    ensures Source(Compile(AaaaaTemplate)) == "^" + "\\/aaaaa\\/" + "([^\\/]+)" + "\\/" + "([^\\/]+)" + "\\/\\*pathname" + "\\/*$"
  {
    CollapsedLeadingSlashes();
    AaaaaPatternSource();
  }

  /** A rooted template without tokens and without a tail compiles to its own characters. */
  lemma PlainCompile(t: string)
    requires |t| > 1 && t[0] == '/' && t[1] != '/' && t[|t| - 1] != '/' && t[|t| - 1] != '*' && ':' !in t
    ensures Compile(t) == Pattern(Chrs(t), Slashes)
  {
    CanonicalPlain(t);
    ScanPlain(t, "");
    assert t + "" == t && Chrs(t) + [] == Chrs(t);
  }

  // `/a/*w`, for words `a` and `w`: a `*` that does not end the template is an escaped literal.
  lemma StarLiteralRender(a: string, w: string)
    requires forall i :: 0 <= i < |a| ==> IsWord(a[i])
    requires forall i :: 0 <= i < |w| ==> IsWord(w[i])
    ensures Source(Pattern(Chrs("/" + a + "/*" + w), Slashes)) == "^" + (("\\/" + a + "\\/") + ("\\*" + w)) + "\\/*$"
  {
    assert "/" + a + "/*" + w == ("/" + a + "/") + ("*" + w);
    ChrsAppend("/" + a + "/", "*" + w);
    PiecesSourceAppend(Chrs("/" + a + "/"), Chrs("*" + w));
    WordSegmentSource(a);
    StarSource(w);
  }

  const SrcTemplate: string := "/src/*filepath"

  lemma SrcLiteralSplit()
    ensures "/" + "src" + "/*" + "filepath" == SrcTemplate
  {
  }

  lemma SrcTextSplit()
    ensures "^" + (("\\/" + "src" + "\\/") + ("\\*" + "filepath")) + "\\/*$" == "^\\/src\\/\\*filepath\\/*$"
  {
  }

  lemma SrcCompile()
    ensures Compile(SrcTemplate) == Pattern(Chrs(SrcTemplate), Slashes)
  {
    PlainCompile(SrcTemplate);
  }

  lemma SrcRender()
    ensures Source(Pattern(Chrs(SrcTemplate), Slashes)) == "^\\/src\\/\\*filepath\\/*$"
  {
    SrcLiteralSplit();
    StarLiteralRender("src", "filepath");
    SrcTextSplit();
  }

  // The `/src/*filepath` case of `TestCompilePath`: the `*` is escaped and is no wildcard.
  lemma SrcStarFilepathSource()
    ensures Source(Compile(SrcTemplate)) == "^\\/src\\/\\*filepath\\/*$"
  {
    SrcCompile();
    SrcRender();
  }
}
