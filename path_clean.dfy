/**
 * `CleanPath` of pathregex/path.go: the lexical canonical form of a URL path
 * (repeated separators collapsed, `.` elements dropped, `..` elements
 * resolved against the element before them, a leading slash supplied and a
 * trailing slash kept).
 *
 * `CleanPath` is modelled as the imperative algorithm it is (a read index,
 * a write index and a lazily allocated buffer), proved equal to `Clean`, a
 * reference definition that walks the path element by element over a
 * stack of kept elements. The properties the cleaned form promises are
 * proved about `Clean`.
 */
module PathClean {

  // ---------------------------------------------------------------------
  // Reference definition of path cleaning
  // ---------------------------------------------------------------------

  /** An element that survives cleaning: non-empty, no separator, not `.` or `..`. */
  predicate IsProper(e: string) {
    |e| > 0 && '/' !in e && e != "." && e != ".."
  }

  predicate AllProper(st: seq<string>) {
    forall i :: 0 <= i < |st| ==> IsProper(st[i])
  }

  /** Length of the leading run of non-separator characters of `s`. */
  function ElementEnd(s: string): (k: nat)
    ensures k <= |s|
    ensures forall i :: 0 <= i < k ==> s[i] != '/'
    ensures k < |s| ==> s[k] == '/'
    ensures |s| > 0 && s[0] != '/' ==> k > 0
  {
    if |s| == 0 || s[0] == '/' then 0 else 1 + ElementEnd(s[1..])
  }

  /** The effect of one element on the stack of kept elements. */
  function Step(stack: seq<string>, e: string): seq<string> {
    if e == "." then stack
    else if e == ".." then (if |stack| == 0 then stack else stack[..|stack| - 1])
    else stack + [e]
  }

  /** Processes `s` element by element; empty elements are skipped. */
  function Walk(stack: seq<string>, s: string): seq<string>
    decreases |s|
  {
    if |s| == 0 then stack
    else if s[0] == '/' then Walk(stack, s[1..])
    else
      var k := ElementEnd(s);
      Walk(Step(stack, s[..k]), s[k..])
  }

  /** `/e1/e2/.../en`. */
  function Joined(st: seq<string>): string {
    if |st| == 0 then "" else "/" + st[0] + Joined(st[1..])
  }

  /** A stack of kept elements as a rooted path; the empty stack is `/`. */
  function Render(st: seq<string>): string {
    if |st| == 0 then "/" else Joined(st)
  }

  predicate EndsInSlash(p: string) {
    |p| > 1 && p[|p| - 1] == '/'
  }

  /** The last element is `.` (the path ends in `/.` or is `.`). */
  predicate EndsInDot(p: string) {
    |p| > 0 && p[|p| - 1] == '.' && (|p| == 1 || p[|p| - 2] == '/')
  }

  /**
   * The cleaned form of `p`: the kept elements rooted at `/`, with a
   * trailing slash when `p` ends in `/` or in a `.` element and something
   * other than the root remains.
   */
  function Clean(p: string): string {
    if p == "" then "/"
    else
      var st := Walk([], p);
      Render(st) + (if (EndsInSlash(p) || EndsInDot(p)) && st != [] then "/" else "")
  }

  /** `p[r..]`, or the empty string once `r` has run past the end. */
  function From(p: string, r: nat): string {
    if r < |p| then p[r..] else ""
  }

  // ---------------------------------------------------------------------
  // Lemmas about the reference definition
  // ---------------------------------------------------------------------

  lemma {:induction false} WalkProper(stack: seq<string>, s: string)
    requires AllProper(stack)
    ensures AllProper(Walk(stack, s))
    decreases |s|
  {
    if |s| == 0 {
    } else if s[0] == '/' {
      WalkProper(stack, s[1..]);
    } else {
      var k := ElementEnd(s);
      var e := s[..k];
      assert '/' !in e by {
        forall i | 0 <= i < |e| ensures e[i] != '/' { assert e[i] == s[i]; }
      }
      WalkProper(Step(stack, e), s[k..]);
    }
  }

  lemma {:induction false} JoinedSnoc(st: seq<string>, e: string)
    ensures Joined(st + [e]) == Joined(st) + "/" + e
  {
    if |st| == 0 {
      assert Joined([e]) == "/" + e + Joined([]);
    } else {
      assert (st + [e])[1..] == st[1..] + [e];
      JoinedSnoc(st[1..], e);
    }
  }

  /** The rendered stack is rooted, and only the empty stack renders as `/`. */
  lemma {:induction false} RenderShape(st: seq<string>)
    requires AllProper(st)
    ensures |Render(st)| >= 1 && Render(st)[0] == '/'
    ensures |Render(st)| == 1 <==> st == []
    ensures st != [] ==> Render(st)[|Render(st)| - 1] != '/'
  {
    if st != [] {
      var init, last := st[..|st| - 1], st[|st| - 1];
      assert st == init + [last];
      JoinedSnoc(init, last);
      assert IsProper(last);
      assert Render(st)[|Render(st)| - 1] == last[|last| - 1];
      assert last[|last| - 1] in last;
    }
  }

  /** Appending an element to the stack appends `/e` (or just `e` to the root). */
  lemma RenderPush(st: seq<string>, e: string)
    ensures Render(st + [e]) == Render(st) + (if st == [] then "" else "/") + e
  {
    if st == [] {
      assert [] + [e] == [e];
      assert Joined([e]) == "/" + e + Joined([]);
    } else {
      JoinedSnoc(st, e);
    }
  }

  /**
   * Removing the last element: the rendering of the shorter stack is a
   * prefix of length `L`, followed (unless it is the root) by a separator
   * and then the last element, which holds no separator.
   */
  lemma RenderPop(st: seq<string>)
    requires AllProper(st) && st != []
    ensures var R := Render(st); var L := |Render(st[..|st| - 1])|;
      1 <= L < |R| && R[..L] == Render(st[..|st| - 1]) &&
      (L > 1 ==> R[L] == '/') &&
      (forall j :: L < j < |R| ==> R[j] != '/')
  {
    var init, last := st[..|st| - 1], st[|st| - 1];
    assert st == init + [last];
    assert IsProper(last);
    RenderShape(init);
    JoinedSnoc(init, last);
    if init == [] {
      assert Render(st) == "/" + last;
      assert forall j :: 1 < j < |Render(st)| ==> Render(st)[j] == last[j - 1];
    } else {
      var L := |Joined(init)|;
      assert forall j :: L < j < |Render(st)| ==> Render(st)[j] == last[j - L - 1];
    }
  }

  /** A separator at `r` is skipped. */
  lemma WalkSlash(stack: seq<string>, p: string, r: nat)
    requires r < |p| && p[r] == '/'
    ensures Walk(stack, From(p, r)) == Walk(stack, From(p, r + 1))
  {
    assert p[r..][1..] == From(p, r + 1);
  }

  /** The element `p[r..k]` is processed in one step. */
  lemma WalkElement(stack: seq<string>, p: string, r: nat, k: nat)
    requires r < k <= |p|
    requires forall j :: r <= j < k ==> p[j] != '/'
    requires k == |p| || p[k] == '/'
    ensures Walk(stack, From(p, r)) == Walk(Step(stack, p[r..k]), From(p, k))
  {
    var s := p[r..];
    assert ElementEnd(s) == k - r;
    assert s[..k - r] == p[r..k];
    assert s[k - r..] == From(p, k);
  }

  /** An element the switch of `CleanPath` sends to the copy branch is proper. */
  lemma ProperElement(p: string, start: nat, r: nat)
    requires start < r <= |p|
    requires forall j :: start <= j < r ==> p[j] != '/'
    requires r == |p| || p[r] == '/'
    requires !(p[start] == '.' && start + 1 == |p|)
    requires !(p[start] == '.' && start + 1 < |p| && p[start + 1] == '/')
    requires !(p[start] == '.' && start + 1 < |p| && p[start + 1] == '.' &&
               (start + 2 == |p| || p[start + 2] == '/'))
    ensures IsProper(p[start..r])
  {
    var e := p[start..r];
    assert forall i :: 0 <= i < |e| ==> e[i] == p[start + i];
    if |e| == 1 {
      assert e == [p[start]];
    } else if |e| == 2 {
      assert e == [p[start], p[start + 1]];
    }
  }

  // ---------------------------------------------------------------------
  // The algorithm: CleanPath and bufApp
  // ---------------------------------------------------------------------

  /**
   * The buffer, once allocated, has room for the whole input, plus the
   * leading slash that is supplied when the input lacks one (`d == 1`).
   */
  predicate Sized(buf: array<char>, p: string, d: nat) {
    if d == 1 then buf.Length == |p| + 1 else buf.Length == 0 || buf.Length == |p|
  }

  /**
   * What has been written so far: while no buffer has been allocated the
   * output is the prefix `p[..w]` of the input itself.
   */
  function Written(buf: array<char>, p: string, w: nat): string
    reads buf
    requires buf.Length == 0 ==> w <= |p|
    requires buf.Length != 0 ==> w <= buf.Length
  {
    if buf.Length == 0 then p[..w] else buf[..w]
  }

  /**
   * `bufApp`: writes `c` at `w`. Without a buffer, nothing is done when `c`
   * is what the input already holds there; otherwise a buffer of the
   * input's length is allocated and the prefix copied into it first.
   */
  method BufApp(buf: array<char>, s: string, w: nat, c: char) returns (b: array<char>)
    requires buf.Length == 0 ==> w < |s|
    requires buf.Length != 0 ==> w < buf.Length
    modifies buf
    ensures buf.Length != 0 ==> b == buf
    ensures buf.Length == 0 && s[w] == c ==> b == buf
    ensures buf.Length == 0 && s[w] != c ==> fresh(b) && b.Length == |s|
    ensures Written(b, s, w + 1) == old(Written(buf, s, w)) + [c]
  {
    b := buf;
    if buf.Length == 0 {
      if s[w] == c {
        assert s[..w + 1] == s[..w] + [c];
        return;
      }
      b := new char[|s|];
      var i := 0;
      while i < w
        invariant 0 <= i <= w
        invariant b[..i] == s[..i]
      {
        b[i] := s[i];
        i := i + 1;
      }
    }
    b[w] := c;
    assert b[..w + 1] == b[..w] + [c];
  }

  /**
   * The `..` case of `CleanPath` once something can be removed: moves the
   * write index back to the last separator still kept.
   */
  method Backtrack(buf: array<char>, p: string, w0: nat, ghost stack: seq<string>) returns (w: nat)
    requires AllProper(stack) && stack != []
    requires buf.Length == 0 ==> w0 <= |p|
    requires buf.Length != 0 ==> w0 <= buf.Length
    requires Written(buf, p, w0) == Render(stack)
    ensures 1 <= w < w0
    ensures Written(buf, p, w) == Render(stack[..|stack| - 1])
  {
    ghost var R := Written(buf, p, w0);
    ghost var init := stack[..|stack| - 1];
    RenderPop(stack);
    w := w0 - 1;
    if buf.Length == 0 {
      while w > 1 && p[w] != '/'
        invariant |Render(init)| <= w < |R|
        invariant R == p[..|R|]
      {
        w := w - 1;
      }
    } else {
      while w > 1 && buf[w] != '/'
        invariant |Render(init)| <= w < |R|
        invariant R == buf[..|R|]
      {
        w := w - 1;
      }
    }
    assert Written(buf, p, w) == R[..w];
  }

  /**
   * The copy loop of the default case of `CleanPath`: appends the element
   * starting at `r0` and stops at the next separator or the end.
   */
  method CopyElement(buf0: array<char>, p: string, r0: nat, w0: nat, ghost d: nat)
      returns (buf: array<char>, r: nat, w: nat)
    requires r0 < |p| && p[r0] != '/'
    requires d <= 1 && 1 <= w0 <= r0 + d
    requires Sized(buf0, p, d)
    modifies buf0
    ensures r0 < r <= |p| && (r == |p| || p[r] == '/')
    ensures forall j :: r0 <= j < r ==> p[j] != '/'
    ensures w == w0 + (r - r0)
    ensures buf == buf0 || fresh(buf)
    ensures Sized(buf, p, d)
    ensures Written(buf, p, w) == old(Written(buf0, p, w0)) + p[r0..r]
  {
    buf, r, w := buf0, r0, w0;
    ghost var base := Written(buf0, p, w0);
    assert Copying(buf, p, d, r0, r, w0, w, base);
    while r < |p| && p[r] != '/'
      invariant buf == buf0 || fresh(buf)
      invariant Copying(buf, p, d, r0, r, w0, w, base)
      decreases |p| - r
    {
      buf, r, w := CopyChar(buf, p, d, r0, r, w0, w, base);
    }
  }

  /**
   * The invariant of the copy loop: `p[r0..r]` holds no separator and has
   * been appended to `base`, the output the loop started from.
   */
  ghost predicate Copying(buf: array<char>, p: string, d: nat, r0: nat, r: nat, w0: nat, w: nat, base: string)
    reads buf
  {
    && d <= 1 && r0 <= r <= |p| && w == w0 + (r - r0) && 1 <= w0 <= r0 + d
    && (forall j :: r0 <= j < r ==> p[j] != '/')
    && Sized(buf, p, d)
    && (buf.Length == 0 ==> w <= |p|) && (buf.Length != 0 ==> w <= buf.Length)
    && Written(buf, p, w) == base + p[r0..r]
  }

  /** One pass of the copy loop: the character at `r` is appended. */
  method CopyChar(buf: array<char>, p: string, ghost d: nat, ghost r0: nat, r: nat, ghost w0: nat, w: nat, ghost base: string)
      returns (b: array<char>, r2: nat, w2: nat)
    requires r < |p| && p[r] != '/'
    requires Copying(buf, p, d, r0, r, w0, w, base)
    modifies buf
    ensures b == buf || fresh(b)
    ensures r2 == r + 1 && w2 == w + 1
    ensures Copying(b, p, d, r0, r2, w0, w2, base)
  {
    b := BufApp(buf, p, w, p[r]);
    SliceSnoc(p, r0, r);
    r2, w2 := r + 1, w + 1;
  }

  lemma SliceSnoc(s: string, i: nat, j: nat)
    requires i <= j < |s|
    ensures s[i..j + 1] == s[i..j] + [s[j]]
  {
  }

  /** The state of `CleanPath` between two passes of its switch. */
  datatype Cursor = Cursor(r: nat, w: nat, trailing: bool, stack: seq<string>, out: string)

  /**
   * The loop invariant of `CleanPath` apart from the buffer: `r` is the read
   * index, `w` the write index, `d` is 1 when a leading slash had to be
   * supplied, `out` is what has been written and `stack` the elements it
   * renders.
   */
  ghost predicate Progress(p: string, d: nat, c: Cursor) {
    Shape(p, d, c) && Content(p, c)
  }

  /**
   * The index part: `r` sits at an element boundary, the write index trails
   * the read index (so that the output fits in the input while no separator
   * had to be supplied), and `trailing` records whether a trailing slash is
   * due when the input runs out.
   */
  ghost predicate Shape(p: string, d: nat, c: Cursor) {
    match c
    case Cursor(r, w, trailing, _, _) =>
      && |p| > 0 && (d == 0 <==> p[0] == '/') && d <= 1
      && 1 - d <= r <= |p| + 1
      && 1 <= w <= r + d && w <= |p| + d
      && (r < |p| ==> (r == 0 || p[r - 1] == '/' || p[r] == '/'))
      && (0 < r <= |p| && p[r - 1] == '/' ==> (w == 1 || w < r + d))
      && trailing == (EndsInSlash(p) || (EndsInDot(p) && r >= |p|))
      && (trailing && r >= |p| ==> r == |p| && (w == 1 || w < r + d))
  }

  /**
   * The content part: the output renders the stack of kept elements, and
   * walking the unread input from that stack ends where walking the whole
   * input ends.
   */
  ghost predicate Content(p: string, c: Cursor) {
    match c
    case Cursor(r, w, _, stack, out) =>
      && AllProper(stack)
      && out == Render(stack) && |out| == w
      && (w == 1 <==> stack == [])
      && Walk(stack, From(p, r)) == Walk([], p)
  }

  lemma ShapeStart(p: string, d: nat, c: Cursor)
    requires |p| > 0 && d == (if p[0] == '/' then 0 else 1)
    requires c.r == 1 - d && c.w == 1 && c.trailing == (|p| > 1 && p[|p| - 1] == '/')
    ensures Shape(p, d, c)
  {
  }

  lemma ContentStart(p: string, c: Cursor)
    requires |p| > 0 && c.r == (if p[0] == '/' then 1 else 0)
    requires c.w == 1 && c.stack == [] && c.out == "/"
    ensures Content(p, c)
  {
    if p[0] == '/' {
      WalkSlash([], p, 0);
    }
  }

  /** Case `/`: an empty element. */
  lemma ShapeSlash(p: string, d: nat, c: Cursor, c2: Cursor)
    requires Shape(p, d, c) && c.r < |p| && p[c.r] == '/'
    requires c2.r == c.r + 1 && c2.w == c.w && c2.trailing == c.trailing
    ensures Shape(p, d, c2)
  {
  }

  lemma ContentSlash(p: string, c: Cursor, c2: Cursor)
    requires Content(p, c) && c.r < |p| && p[c.r] == '/'
    requires c2.r == c.r + 1 && c2.w == c.w && c2.stack == c.stack && c2.out == c.out
    ensures Content(p, c2)
  {
    WalkSlash(c.stack, p, c.r);
  }

  /** Case `.` at the very end: the trailing slash is to be kept. */
  lemma ShapeDotEnd(p: string, d: nat, c: Cursor, c2: Cursor)
    requires Shape(p, d, c) && c.r < |p| && p[c.r] == '.' && c.r + 1 == |p|
    requires c2.r == c.r + 1 && c2.w == c.w && c2.trailing
    ensures Shape(p, d, c2)
  {
  }

  lemma ContentDotEnd(p: string, c: Cursor, c2: Cursor)
    requires Content(p, c) && c.r < |p| && p[c.r] == '.' && c.r + 1 == |p|
    requires c2.r == c.r + 1 && c2.w == c.w && c2.stack == c.stack && c2.out == c.out
    ensures Content(p, c2)
  {
    WalkElement(c.stack, p, c.r, |p|);
    assert p[c.r..|p|] == ".";
  }

  /** Case `./`: a `.` element. */
  lemma ShapeDot(p: string, d: nat, c: Cursor, c2: Cursor)
    requires Shape(p, d, c) && c.r + 1 < |p| && p[c.r] == '.' && p[c.r + 1] == '/'
    requires c2.r == c.r + 2 && c2.w == c.w && c2.trailing == c.trailing
    ensures Shape(p, d, c2)
  {
  }

  lemma ContentDot(p: string, c: Cursor, c2: Cursor)
    requires Content(p, c) && c.r + 1 < |p| && p[c.r] == '.' && p[c.r + 1] == '/'
    requires c2.r == c.r + 2 && c2.w == c.w && c2.stack == c.stack && c2.out == c.out
    ensures Content(p, c2)
  {
    DotWalk(c.stack, p, c.r);
  }

  lemma DotWalk(stack: seq<string>, p: string, r: nat)
    requires r + 1 < |p| && p[r] == '.' && p[r + 1] == '/'
    ensures Walk(stack, From(p, r)) == Walk(stack, From(p, r + 2))
  {
    WalkElement(stack, p, r, r + 1);
    assert p[r..r + 1] == ".";
    WalkSlash(stack, p, r + 1);
  }

  /** Case `..`: the last kept element (if any) is dropped. */
  lemma ShapeDotDot(p: string, d: nat, c: Cursor, c2: Cursor)
    requires Shape(p, d, c)
    requires c.r + 1 < |p| && p[c.r] == '.' && p[c.r + 1] == '.' && (c.r + 2 == |p| || p[c.r + 2] == '/')
    requires c2.r == c.r + 3 && c2.trailing == c.trailing
    requires c.w == 1 ==> c2.w == 1
    requires c.w > 1 ==> 1 <= c2.w < c.w
    ensures Shape(p, d, c2)
  {
    DotDotTrailing(p, c.r);
  }

  lemma ContentDotDot(p: string, c: Cursor, c2: Cursor)
    requires Content(p, c)
    requires c.r + 1 < |p| && p[c.r] == '.' && p[c.r + 1] == '.' && (c.r + 2 == |p| || p[c.r + 2] == '/')
    requires c2.r == c.r + 3 && c2.stack == Step(c.stack, "..")
    requires c.w == 1 ==> c2.w == c.w && c2.out == c.out
    requires c.w > 1 ==> c.stack != [] && c2.out == Render(c.stack[..|c.stack| - 1]) && |c2.out| == c2.w
    ensures Content(p, c2)
  {
    DotDotWalk(c.stack, p, c.r);
    assert AllProper(c2.stack);
    RenderShape(c2.stack);
  }

  lemma DotDotWalk(stack: seq<string>, p: string, r: nat)
    requires r + 1 < |p| && p[r] == '.' && p[r + 1] == '.' && (r + 2 == |p| || p[r + 2] == '/')
    ensures Walk(stack, From(p, r)) == Walk(Step(stack, ".."), From(p, r + 3))
  {
    WalkElement(stack, p, r, r + 2);
    assert p[r..r + 2] == "..";
    if r + 2 < |p| {
      WalkSlash(Step(stack, ".."), p, r + 2);
    }
  }

  lemma DotDotTrailing(p: string, r: nat)
    requires r + 1 < |p| && p[r] == '.' && p[r + 1] == '.' && (r + 2 == |p| || p[r + 2] == '/')
    ensures r + 3 >= |p| ==> !EndsInDot(p)
    ensures r + 3 > |p| ==> !EndsInSlash(p)
  {
  }

  /** Room for the separator before a new element. */
  lemma ShapeRoom(p: string, d: nat, c: Cursor)
    requires Shape(p, d, c) && c.r < |p| && p[c.r] != '/'
    ensures c.w > 1 ==> c.w + 1 <= c.r + d
  {
  }

  /** Default case: a proper element `p[c.r..c2.r]` is appended to the output. */
  lemma ShapeElement(p: string, d: nat, c: Cursor, c2: Cursor)
    requires Shape(p, d, c) && c.r < |p| && p[c.r] != '/'
    requires !(p[c.r] == '.' && c.r + 1 == |p|)
    requires c.r < c2.r <= |p| && (c2.r == |p| || p[c2.r] == '/')
    requires forall j :: c.r <= j < c2.r ==> p[j] != '/'
    requires c2.w == c.w + (if c.w > 1 then 1 else 0) + (c2.r - c.r) && c2.trailing == c.trailing
    ensures Shape(p, d, c2)
  {
    ShapeRoom(p, d, c);
    if c2.r == |p| {
      assert p[|p| - 1] != '/';
    }
  }

  lemma ContentElement(p: string, c: Cursor, c2: Cursor)
    requires Content(p, c) && c.r < |p| && p[c.r] != '/'
    requires !(p[c.r] == '.' && c.r + 1 == |p|)
    requires !(p[c.r] == '.' && c.r + 1 < |p| && p[c.r + 1] == '/')
    requires !(p[c.r] == '.' && c.r + 1 < |p| && p[c.r + 1] == '.' && (c.r + 2 == |p| || p[c.r + 2] == '/'))
    requires c.r < c2.r <= |p| && (c2.r == |p| || p[c2.r] == '/')
    requires forall j :: c.r <= j < c2.r ==> p[j] != '/'
    requires c2.stack == c.stack + [p[c.r..c2.r]]
    requires c2.out == c.out + (if c.w > 1 then "/" else "") + p[c.r..c2.r]
    requires c2.w == |c2.out|
    ensures Content(p, c2)
  {
    ProperElement(p, c.r, c2.r);
    WalkElement(c.stack, p, c.r, c2.r);
    RenderPush(c.stack, p[c.r..c2.r]);
    RenderShape(c2.stack);
  }

  /** After the loop: the output plus the trailing slash is the cleaned path. */
  lemma Finish(p: string, d: nat, c: Cursor)
    requires Progress(p, d, c) && c.r >= |p|
    ensures c.w <= |p| + d
    ensures c.trailing && c.w > 1 ==> c.w < |p| + d
    ensures c.out + (if c.trailing && c.w > 1 then "/" else "") == Clean(p)
  {
  }

  /**
   * One pass of the switch in the loop of `CleanPath`: handles the input
   * from the read index `r0` and returns the new indices, buffer and
   * trailing-slash flag; the loop invariant is kept and input is consumed.
   */
  method CleanStep(buf0: array<char>, p: string, r0: nat, w0: nat, trailing0: bool,
                   ghost d: nat, ghost stack0: seq<string>, ghost out0: string)
      returns (buf: array<char>, r: nat, w: nat, trailing: bool, ghost stack: seq<string>, ghost out: string)
    requires r0 < |p| && d <= 1
    requires Sized(buf0, p, d)
    requires Progress(p, d, Cursor(r0, w0, trailing0, stack0, out0))
    requires out0 == Written(buf0, p, w0)
    modifies buf0
    ensures buf == buf0 || fresh(buf)
    ensures Sized(buf, p, d)
    ensures r0 < r && Progress(p, d, Cursor(r, w, trailing, stack, out))
    ensures out == Written(buf, p, w)
  {
    buf, r, w, trailing, stack, out := buf0, r0, w0, trailing0, stack0, out0;
    var n := |p|;
    ghost var c0 := Cursor(r0, w0, trailing0, stack0, out0);
    if p[r] == '/' {
      r := r + 1;
      ShapeSlash(p, d, c0, Cursor(r, w, trailing, stack, out));
      ContentSlash(p, c0, Cursor(r, w, trailing, stack, out));
    } else if p[r] == '.' && r + 1 == n {
      trailing := true;
      r := r + 1;
      ShapeDotEnd(p, d, c0, Cursor(r, w, trailing, stack, out));
      ContentDotEnd(p, c0, Cursor(r, w, trailing, stack, out));
    } else if p[r] == '.' && p[r + 1] == '/' {
      r := r + 2;
      ShapeDot(p, d, c0, Cursor(r, w, trailing, stack, out));
      ContentDot(p, c0, Cursor(r, w, trailing, stack, out));
    } else if p[r] == '.' && p[r + 1] == '.' && (r + 2 == n || p[r + 2] == '/') {
      r, w, stack, out := DotDotStep(buf, p, r, w, trailing, d, stack, out);
    } else {
      buf, r, w, stack, out := ElementStep(buf, p, r, w, trailing, d, stack, out);
    }
  }

  /** Case `..` of the switch: backtracks to the previous separator. */
  method DotDotStep(buf: array<char>, p: string, r0: nat, w0: nat, trailing: bool,
                    ghost d: nat, ghost stack0: seq<string>, ghost out0: string)
      returns (r: nat, w: nat, ghost stack: seq<string>, ghost out: string)
    requires r0 + 1 < |p| && p[r0] == '.' && p[r0 + 1] == '.' && (r0 + 2 == |p| || p[r0 + 2] == '/')
    requires d <= 1
    requires Sized(buf, p, d)
    requires Progress(p, d, Cursor(r0, w0, trailing, stack0, out0))
    requires out0 == Written(buf, p, w0)
    ensures r == r0 + 3 && Progress(p, d, Cursor(r, w, trailing, stack, out))
    ensures out == Written(buf, p, w)
  {
    r, w := r0 + 3, w0;
    if w0 > 1 {
      w := Backtrack(buf, p, w0, stack0);
    }
    out := Written(buf, p, w);
    stack := Step(stack0, "..");
    ProgressDotDot(p, d, Cursor(r0, w0, trailing, stack0, out0), Cursor(r, w, trailing, stack, out));
  }

  lemma ProgressDotDot(p: string, d: nat, c: Cursor, c2: Cursor)
    requires Progress(p, d, c)
    requires c.r + 1 < |p| && p[c.r] == '.' && p[c.r + 1] == '.' && (c.r + 2 == |p| || p[c.r + 2] == '/')
    requires c2.r == c.r + 3 && c2.trailing == c.trailing && c2.stack == Step(c.stack, "..")
    requires c.w == 1 ==> c2.w == c.w && c2.out == c.out
    requires c.w > 1 ==> 1 <= c2.w < c.w && c2.out == Render(c.stack[..|c.stack| - 1]) && |c2.out| == c2.w
    ensures Progress(p, d, c2)
  {
    ShapeDotDot(p, d, c, c2);
    ContentDotDot(p, c, c2);
  }

  /** Default case of the switch: copies one element, after a separator if needed. */
  method ElementStep(buf0: array<char>, p: string, r0: nat, w0: nat, trailing: bool,
                     ghost d: nat, ghost stack0: seq<string>, ghost out0: string)
      returns (buf: array<char>, r: nat, w: nat, ghost stack: seq<string>, ghost out: string)
    requires r0 < |p| && p[r0] != '/'
    requires !(p[r0] == '.' && r0 + 1 == |p|)
    requires !(p[r0] == '.' && r0 + 1 < |p| && p[r0 + 1] == '/')
    requires !(p[r0] == '.' && r0 + 1 < |p| && p[r0 + 1] == '.' && (r0 + 2 == |p| || p[r0 + 2] == '/'))
    requires d <= 1
    requires Sized(buf0, p, d)
    requires Progress(p, d, Cursor(r0, w0, trailing, stack0, out0))
    requires out0 == Written(buf0, p, w0)
    modifies buf0
    ensures buf == buf0 || fresh(buf)
    ensures Sized(buf, p, d)
    ensures r0 < r && Progress(p, d, Cursor(r, w, trailing, stack, out))
    ensures out == Written(buf, p, w)
  {
    ghost var c0 := Cursor(r0, w0, trailing, stack0, out0);
    ShapeRoom(p, d, c0);
    buf, w := buf0, w0;
    ghost var sep := if w0 > 1 then "/" else "";
    if w0 > 1 {
      buf := BufApp(buf, p, w, '/');
      w := w + 1;
    }
    assert Written(buf, p, w) == out0 + sep;
    ghost var mid := Written(buf, p, w);
    buf, r, w := CopyElement(buf, p, r0, w, d);
    stack, out := stack0 + [p[r0..r]], Written(buf, p, w);
    ShapeElement(p, d, c0, Cursor(r, w, trailing, stack, out));
    ContentElement(p, c0, Cursor(r, w, trailing, stack, out));
  }

  /**
   * `CleanPath`: the lexical canonical form of `p`. `usedBuffer` tells
   * whether a buffer was needed; without one the result is a prefix of `p`.
   */
  method CleanPath(p: string) returns (cleaned: string, ghost usedBuffer: bool)
    ensures cleaned == Clean(p)
    ensures p != "" && !usedBuffer ==> |cleaned| <= |p| && cleaned == p[..|cleaned|]
  {
    if p == "" {
      return "/", false;
    }
    var buf, r, w, trailing, d, stack, out := Start(p);
    buf, r, w, trailing, stack, out := Sweep(buf, p, r, w, trailing, d, stack, out);
    cleaned, usedBuffer := Close(buf, p, r, w, trailing, d, stack, out);
  }

  /**
   * The set-up of `CleanPath`: reading starts after a leading slash, and
   * when there is none a buffer is allocated at once with `/` written.
   */
  method Start(p: string)
      returns (buf: array<char>, r: nat, w: nat, trailing: bool, ghost d: nat, ghost stack: seq<string>, ghost out: string)
    requires p != ""
    ensures fresh(buf) && d <= 1 && Sized(buf, p, d)
    ensures Progress(p, d, Cursor(r, w, trailing, stack, out))
    ensures out == Written(buf, p, w)
  {
    var n := |p|;
    buf := new char[0];
    r, w := 1, 1;
    if p[0] != '/' {
      r := 0;
      buf := new char[n + 1];
      buf[0] := '/';
    }
    trailing := n > 1 && p[n - 1] == '/';
    d := if p[0] == '/' then 0 else 1;
    stack := [];
    ShapeStart(p, d, Cursor(r, w, trailing, stack, "/"));
    ContentStart(p, Cursor(r, w, trailing, stack, "/"));
    out := Written(buf, p, w);
    assert out == "/";
  }

  /** The loop of `CleanPath`: one pass of the switch until the input runs out. */
  method Sweep(buf0: array<char>, p: string, r0: nat, w0: nat, trailing0: bool,
               ghost d: nat, ghost stack0: seq<string>, ghost out0: string)
      returns (buf: array<char>, r: nat, w: nat, trailing: bool, ghost stack: seq<string>, ghost out: string)
    requires d <= 1 && Sized(buf0, p, d)
    requires Progress(p, d, Cursor(r0, w0, trailing0, stack0, out0))
    requires out0 == Written(buf0, p, w0)
    modifies buf0
    ensures buf == buf0 || fresh(buf)
    ensures Sized(buf, p, d)
    ensures r >= |p| && Progress(p, d, Cursor(r, w, trailing, stack, out))
    ensures out == Written(buf, p, w)
  {
    buf, r, w, trailing, stack, out := buf0, r0, w0, trailing0, stack0, out0;
    while r < |p|
      invariant buf == buf0 || fresh(buf)
      invariant Sized(buf, p, d)
      invariant Progress(p, d, Cursor(r, w, trailing, stack, out))
      invariant out == Written(buf, p, w)
      decreases |p| + 1 - r
    {
      buf, r, w, trailing, stack, out := CleanStep(buf, p, r, w, trailing, d, stack, out);
    }
  }

  /** After the loop: the trailing slash is appended when due and the output taken. */
  method Close(buf0: array<char>, p: string, r: nat, w0: nat, trailing: bool,
               ghost d: nat, ghost stack: seq<string>, ghost out: string)
      returns (cleaned: string, ghost usedBuffer: bool)
    requires d <= 1 && Sized(buf0, p, d)
    requires r >= |p| && Progress(p, d, Cursor(r, w0, trailing, stack, out))
    requires out == Written(buf0, p, w0)
    modifies buf0
    ensures cleaned == Clean(p)
    ensures !usedBuffer ==> |cleaned| <= |p| && cleaned == p[..|cleaned|]
  {
    Finish(p, d, Cursor(r, w0, trailing, stack, out));
    var buf, w := buf0, w0;
    if trailing && w > 1 {
      buf := BufApp(buf, p, w, '/');
      w := w + 1;
    }
    assert Written(buf, p, w) == Clean(p);
    usedBuffer := buf.Length != 0;
    if buf.Length == 0 {
      cleaned := p[..w];
    } else {
      cleaned := buf[..w];
    }
  }

  // ---------------------------------------------------------------------
  // Properties of the cleaned form
  // ---------------------------------------------------------------------

  /** A separator (or the end) right after `x` ends the element `x` starts with. */
  lemma {:induction false} ElementEndAppend(x: string, y: string)
    requires y == [] || y[0] == '/'
    ensures ElementEnd(x + y) == ElementEnd(x)
  {
    if |x| == 0 {
      assert x + y == y;
    } else if x[0] != '/' {
      assert (x + y)[1..] == x[1..] + y;
      ElementEndAppend(x[1..], y);
    }
  }

  /** Walking `x` and then, from a separator on, `y`. */
  lemma {:induction false} WalkAppend(acc: seq<string>, x: string, y: string)
    requires y == [] || y[0] == '/'
    ensures Walk(acc, x + y) == Walk(Walk(acc, x), y)
    decreases |x|
  {
    if |x| == 0 {
      assert x + y == y;
    } else if x[0] == '/' {
      assert (x + y)[1..] == x[1..] + y;
      WalkAppend(acc, x[1..], y);
    } else {
      var k := ElementEnd(x);
      ElementEndAppend(x, y);
      assert (x + y)[..k] == x[..k];
      assert (x + y)[k..] == x[k..] + y;
      WalkAppend(Step(acc, x[..k]), x[k..], y);
    }
  }

  /** Walking a rendered stack of proper elements pushes exactly those elements. */
  lemma {:induction false} WalkJoined(acc: seq<string>, st: seq<string>)
    requires AllProper(st)
    ensures Walk(acc, Joined(st)) == acc + st
    decreases |st|
  {
    if st != [] {
      var init, last := st[..|st| - 1], st[|st| - 1];
      assert st == init + [last];
      assert IsProper(last);
      JoinedSnoc(init, last);
      assert Joined(st) == Joined(init) + ("/" + last + []);
      WalkAppend(acc, Joined(init), "/" + last + []);
      WalkJoined(acc, init);
      WalkProperElement(acc + init, last, []);
      assert acc + init + [last] == acc + st;
    }
  }

  lemma JoinedHead(st: seq<string>)
    ensures Joined(st) == [] || Joined(st)[0] == '/'
  {
  }

  /** `/e` for a proper element `e` pushes `e`. */
  lemma WalkProperElement(acc: seq<string>, e: string, y: string)
    requires IsProper(e)
    requires y == [] || y[0] == '/'
    ensures Walk(acc, "/" + e + y) == Walk(acc + [e], y)
  {
    var z := e + y;
    assert ("/" + e + y)[1..] == z;
    ElementEndAppend(e, y);
    assert z[..|e|] == e;
    assert z[|e|..] == y;
  }

  /** Cleaning keeps the meaning of a path: it walks to the same stack. */
  lemma CleanWalk(p: string)
    ensures Walk([], Clean(p)) == Walk([], p)
  {
    var st := Walk([], p);
    if p != "" && st != [] {
      WalkProper([], p);
      var t := if EndsInSlash(p) || EndsInDot(p) then "/" else "";
      assert Clean(p) == Joined(st) + t;
      WalkAppend([], Joined(st), t);
      WalkJoined([], st);
      assert [] + st == st;
    }
  }

  /** The output of `CleanPath` always begins with `/`, even when the input does not; `""` becomes `/`. */
  lemma CleanRooted(p: string)
    ensures |Clean(p)| > 0 && Clean(p)[0] == '/'
    ensures p == "" ==> Clean(p) == "/"
  {
    if p != "" {
      WalkProper([], p);
      RenderShape(Walk([], p));
    }
  }

  /**
   * A trailing slash is kept exactly when the input ended in `/` or in a `.`
   * element and the result is more than the root.
   */
  lemma CleanTrailing(p: string)
    requires p != ""
    ensures EndsInSlash(Clean(p)) <==> (EndsInSlash(p) || EndsInDot(p)) && Clean(p) != "/"
  {
    WalkProper([], p);
    RenderShape(Walk([], p));
  }

  /** Cleaning is idempotent. */
  lemma CleanIdempotent(p: string)
    ensures Clean(Clean(p)) == Clean(p)
  {
    var q := Clean(p);
    var st := Walk([], p);
    CleanWalk(p);
    CleanRooted(p);
    if p != "" && st != [] {
      WalkProper([], p);
      RenderShape(st);
      NotEndsInDot(st);
      var t := if EndsInSlash(p) || EndsInDot(p) then "/" else "";
      assert q == Render(st) + t;
      assert EndsInSlash(q) <==> t == "/";
      assert !EndsInDot(q);
    }
  }

  /** A rooted path of proper elements without trailing slash is already clean. */
  lemma CleanRendered(st: seq<string>)
    requires AllProper(st)
    ensures Clean(Render(st)) == Render(st)
  {
    if st != [] {
      var q := Render(st);
      WalkJoined([], st);
      assert Walk([], q) == st;
      RenderShape(st);
      NotEndsInDot(st);
      assert !EndsInSlash(q) && !EndsInDot(q);
    } else {
      assert Walk([], "/") == Walk([], "");
    }
  }

  /** A rendered non-empty stack of proper elements does not end in a `.` element. */
  lemma NotEndsInDot(st: seq<string>)
    requires AllProper(st) && st != []
    ensures !EndsInDot(Render(st))
  {
    var init, last := st[..|st| - 1], st[|st| - 1];
    assert st == init + [last];
    assert IsProper(last);
    JoinedSnoc(init, last);
    var q := Render(st);
    assert q == Joined(init) + "/" + last;
    assert q[|q| - 1] == last[|last| - 1];
    if |last| == 1 {
      assert last == [last[0]];
      assert last[0] != '.';
    } else {
      assert q[|q| - 2] == last[|last| - 2];
      assert last[|last| - 2] in last;
    }
  }

  /** An inner `..` removes the element before it. */
  lemma DotDotCancels(acc: seq<string>, e: string, rest: string)
    requires IsProper(e)
    requires rest == [] || rest[0] == '/'
    ensures Walk(acc, "/" + e + "/.." + rest) == Walk(acc, rest)
  {
    assert "/" + e + "/.." + rest == "/" + e + ("/.." + rest);
    WalkProperElement(acc, e, "/.." + rest);
    var y := ".." + rest;
    assert ("/.." + rest)[1..] == y;
    ElementEndAppend("..", rest);
    assert y[..2] == ".." && y[2..] == rest;
  }

  /** `x/e/..` followed by more of the path cleans as `x` followed by it. */
  lemma InnerDotDot(x: string, e: string, rest: string)
    requires IsProper(e)
    requires |rest| > 0 && rest[0] == '/'
    ensures Clean(x + "/" + e + "/.." + rest) == Clean(x + rest)
  {
    var y := "/" + e + "/.." + rest;
    var p1, p2 := x + "/" + e + "/.." + rest, x + rest;
    assert p1 == x + y;
    WalkAppend([], x, y);
    DotDotCancels(Walk([], x), e, rest);
    WalkAppend([], x, rest);
    assert Walk([], p1) == Walk([], p2);
    SameEnd(p1, p2, rest);
  }

  /** Two paths ending in the same non-empty `rest` agree on their trailing slash. */
  lemma SameEnd(p1: string, p2: string, rest: string)
    requires |rest| > 0 && rest[0] == '/' && Walk([], p1) == Walk([], p2)
    requires |p1| >= |rest| && p1[|p1| - |rest|..] == rest
    requires |p2| >= |rest| && p2[|p2| - |rest|..] == rest
    ensures Clean(p1) == Clean(p2)
  {
    assert p1[|p1| - 1] == rest[|rest| - 1] == p2[|p2| - 1];
    if |rest| >= 2 {
      assert p1[|p1| - 2] == rest[|rest| - 2] == p2[|p2| - 2];
    } else {
      assert |p1| == 1 ==> p1 == rest;
      assert |p2| == 1 ==> p2 == rest;
    }
  }

  /** A leading `/..` cleans away: there is nothing above the root. */
  lemma LeadingDotDot(rest: string)
    requires rest == [] || rest[0] == '/'
    ensures Clean("/.." + rest) == Clean(rest)
  {
    var p := "/.." + rest;
    assert p[1..] == ".." + rest;
    ElementEndAppend("..", rest);
    assert (".." + rest)[..2] == ".." && (".." + rest)[2..] == rest;
    assert Walk([], p) == Walk([], rest);
    if rest != [] {
      assert p[|p| - |rest|..] == rest;
      SameEnd(p, rest, rest);
    }
  }

  /** The element of `q` that starts at `j`. */
  function Segment(q: string, j: nat): (e: string)
    requires j <= |q|
    ensures '/' !in e && |e| <= |q| - j
  {
    q[j..][..ElementEnd(q[j..])]
  }

  /** Every separator is followed by a proper element or ends the path. */
  ghost predicate WellSeparated(q: string) {
    forall i :: 0 <= i < |q| && q[i] == '/' ==> i + 1 == |q| || IsProper(Segment(q, i + 1))
  }

  lemma {:induction false} JoinedSeparated(st: seq<string>, t: string)
    requires AllProper(st) && (t == "" || t == "/")
    ensures WellSeparated(Joined(st) + t)
    decreases |st|
  {
    if st == [] {
      assert Joined(st) + t == t;
    } else {
      var e, x := st[0], Joined(st[1..]) + t;
      assert IsProper(e);
      JoinedSeparated(st[1..], t);
      assert Joined(st) + t == "/" + e + x;
      SeparatedCons(e, x);
    }
  }

  /** Prefixing `/e` for a proper `e` keeps a path well separated. */
  lemma SeparatedCons(e: string, x: string)
    requires IsProper(e) && WellSeparated(x) && (x == [] || x[0] == '/')
    ensures WellSeparated("/" + e + x)
  {
    var q := "/" + e + x;
    NoSeparatorIn(e, x);
    forall i | 0 <= i < |q| && q[i] == '/'
      ensures i + 1 == |q| || IsProper(Segment(q, i + 1))
    {
      if i == 0 {
        SegmentHead(e, x);
      } else if i > |e| {
        SegmentShift(q, x, |e| + 1, i - |e| - 1);
      }
    }
  }

  lemma NoSeparatorIn(e: string, x: string)
    requires '/' !in e
    ensures forall j :: 1 <= j <= |e| ==> ("/" + e + x)[j] != '/'
  {
    var q := "/" + e + x;
    assert forall j :: 1 <= j <= |e| ==> q[j] == e[j - 1] && e[j - 1] in e;
  }

  lemma SegmentHead(e: string, x: string)
    requires IsProper(e) && (x == [] || x[0] == '/')
    ensures Segment("/" + e + x, 1) == e
  {
    var q := "/" + e + x;
    assert q[1..] == e + x;
    ElementEndAppend(e, x);
    assert (e + x)[..|e|] == e;
  }

  /** Separators and elements of a suffix `x` of `q` are those of `q`, shifted. */
  lemma SegmentShift(q: string, x: string, off: nat, i: nat)
    requires off <= |q| && q[off..] == x && i < |x|
    ensures q[off + i] == x[i]
    ensures off + i + 1 == |q| <==> i + 1 == |x|
    ensures Segment(q, off + i + 1) == Segment(x, i + 1)
  {
    assert q[off + i + 1..] == x[i + 1..];
  }

  /**
   * The output has no empty, `.` or `..` elements: every separator in it
   * is followed by a proper element or ends the path.
   */
  lemma CleanSeparated(p: string)
    ensures WellSeparated(Clean(p))
  {
    var st := Walk([], p);
    if p == "" || st == [] {
      assert Clean(p) == "/";
    } else {
      WalkProper([], p);
      var t := if EndsInSlash(p) || EndsInDot(p) then "/" else "";
      assert Clean(p) == Joined(st) + t;
      JoinedSeparated(st, t);
    }
  }
}
