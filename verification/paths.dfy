/**
 * The lexical part of Go's `path/filepath` package on a Unix host, as the
 * file server uses it: `Join`, `Clean`, `Abs`, `Dir`, `Rel` and `HasPrefix`.
 *
 * A path is a string; `Split` cuts it into the fields between slashes and
 * `Clean` normalises those fields as a stack (the "Lexical File Names" rules
 * of Plan 9): empty and `.` fields vanish, `..` removes the name before it,
 * a `..` at the root of an absolute path vanishes and a `..` that starts a
 * relative path is kept.
 */
module Paths {
  import opened Wrappers

  const Slash: char := '/'

  predicate IsAbs(p: string) {
    |p| > 0 && p[0] == Slash
  }

  /** A path element that `Clean` keeps as a name. */
  predicate IsName(f: string) {
    f != [] && f != "." && f != ".." && Slash !in f
  }

  predicate NoSlashIn(fields: seq<string>) {
    forall i :: 0 <= i < |fields| ==> Slash !in fields[i]
  }

  predicate AllNames(segs: seq<string>) {
    forall i :: 0 <= i < |segs| ==> IsName(segs[i])
  }

  /** `strings.Split(s, "/")`: the fields between slashes; one more field than slashes. */
  function Split(s: string): (fields: seq<string>)
    ensures |fields| >= 1
  {
    if s == [] then [[]]
    else
      var rest := Split(s[1..]);
      if s[0] == Slash then [[]] + rest
      else [[s[0]] + rest[0]] + rest[1..]
  }

  /** `strings.Join(segs, "/")`. */
  function JoinSlash(segs: seq<string>): string {
    if segs == [] then []
    else if |segs| == 1 then segs[0]
    else segs[0] + [Slash] + JoinSlash(segs[1..])
  }

  /** One field of `Clean`'s scan applied to the stack of kept elements. */
  function Step(rooted: bool, stack: seq<string>, f: string): seq<string> {
    if f == [] || f == "." then stack
    else if f == ".." then
      if |stack| > 0 && stack[|stack| - 1] != ".." then stack[..|stack| - 1]
      else if rooted then stack
      else stack + [".."]
    else stack + [f]
  }

  /** `Clean`'s scan over a list of fields, left to right. */
  function Normalize(rooted: bool, stack: seq<string>, fields: seq<string>): seq<string>
    decreases |fields|
  {
    if fields == [] then stack
    else Normalize(rooted, Step(rooted, stack, fields[0]), fields[1..])
  }

  /** The elements `Clean` keeps of `p`. */
  function Segments(p: string): seq<string> {
    Normalize(IsAbs(p), [], Split(p))
  }

  /** The text `Clean` builds from the kept elements. */
  function Render(rooted: bool, segs: seq<string>): string {
    if rooted then [Slash] + JoinSlash(segs)
    else if segs == [] then "."
    else JoinSlash(segs)
  }

  /** `filepath.Clean`. */
  function Clean(p: string): string {
    if p == [] then "." else Render(IsAbs(p), Segments(p))
  }

  /** `filepath.Join(a, b)`: leading empty elements are skipped, an all-empty join is empty. */
  function Join(a: string, b: string): string {
    if a != [] then Clean(a + [Slash] + b)
    else if b != [] then Clean(b)
    else []
  }

  /**
   * `filepath.Abs`: an absolute path is cleaned, a relative one is joined
   * onto the working directory; `cwd` is the outcome of `os.Getwd`, `None`
   * when it fails.
   */
  function Abs(p: string, cwd: Option<string>): Option<string> {
    if IsAbs(p) then Some(Clean(p))
    else match cwd
      case None => None
      case Some(wd) => Some(Join(wd, p))
  }

  /** Index of the last slash of `s`, or -1. */
  function LastSlash(s: string): (i: int)
    ensures -1 <= i < |s|
    ensures i >= 0 ==> s[i] == Slash
    ensures forall j :: i < j < |s| ==> s[j] != Slash
  {
    if s == [] then -1
    else if s[|s| - 1] == Slash then |s| - 1
    else LastSlash(s[..|s| - 1])
  }

  /** `filepath.Dir`: everything up to the last slash, cleaned. */
  function Dir(p: string): string {
    Clean(p[..LastSlash(p) + 1])
  }

  /** `filepath.HasPrefix` on Unix, which is `strings.HasPrefix`: a comparison of characters. */
  predicate HasPrefix(s: string, prefix: string) {
    prefix <= s
  }

  /** Length of the longest common prefix of two element lists. */
  function CommonPrefix(b: seq<string>, t: seq<string>): (k: nat)
    ensures k <= |b| && k <= |t|
    ensures b[..k] == t[..k]
    ensures k < |b| && k < |t| ==> b[k] != t[k]
  {
    if b == [] || t == [] || b[0] != t[0] then 0
    else 1 + CommonPrefix(b[1..], t[1..])
  }

  /** `n` copies of `..`. */
  function Ups(n: nat): (r: seq<string>)
    ensures |r| == n
    ensures forall i :: 0 <= i < n ==> r[i] == ".."
  {
    if n == 0 then [] else Ups(n - 1) + [".."]
  }

  /**
   * `filepath.Rel(basepath, targpath)` for absolute arguments, `None` for
   * its error returns: both paths are cleaned; equal paths give `.`; an
   * absolute and a relative path cannot be related; otherwise the walk goes
   * up over the base's elements past the common prefix and down the
   * target's. For relative arguments the walk also fails where it would have
   * to go up over a `..`, but a relative target that cleans to `.` is walked
   * as no elements, where Go keeps a `.` element (`Rel("a", ".")` is `../.`
   * in Go and `..` here).
   */
  function Rel(basepath: string, targpath: string): Option<string> {
    var base := Clean(basepath);
    var targ := Clean(targpath);
    if targ == base then Some(".")
    else if IsAbs(base) != IsAbs(targ) then None
    else
      var b := Segments(basepath);
      var t := Segments(targpath);
      var k := CommonPrefix(b, t);
      if k < |b| && b[k] == ".." then None
      else Some(JoinSlash(Ups(|b| - k) + t[k..]))
  }

  // ---------------------------------------------------------------------
  // Splitting and joining

  /** No field of a split holds a slash. */
  lemma {:induction false} SplitFields(s: string)
    ensures NoSlashIn(Split(s))
  {
    if s != [] {
      SplitFields(s[1..]);
      var rest := Split(s[1..]);
      if s[0] != Slash {
        assert Slash !in [s[0]] + rest[0];
      }
    }
  }

  lemma {:induction false} SplitNoSlash(a: string)
    requires Slash !in a
    ensures Split(a) == [a]
  {
    if a != [] {
      SplitNoSlash(a[1..]);
      assert a[0] != Slash;
      assert [a[0]] + a[1..] == a;
    }
  }

  /** `Split` of a string seen as its first character and the rest. */
  lemma SplitCons(c: char, t: string)
    ensures Split([c] + t) == if c == Slash then [[]] + Split(t) else [[c] + Split(t)[0]] + Split(t)[1..]
  {
    assert ([c] + t)[1..] == t;
  }

  /** Splitting at an inserted slash splits the two sides independently. */
  lemma {:induction false} SplitAppend(a: string, b: string)
    ensures Split(a + [Slash] + b) == Split(a) + Split(b)
  {
    if a == [] {
      assert a + [Slash] + b == [Slash] + b;
      SplitCons(Slash, b);
    } else {
      var c, t := a[0], a[1..];
      var rest := t + [Slash] + b;
      assert a + [Slash] + b == [c] + rest;
      assert a == [c] + t;
      assert Split(rest) == Split(t) + Split(b) by {
        SplitAppend(t, b);
      }
      SplitCons(c, rest);
      SplitCons(c, t);
      if c != Slash {
        HeadConcat([c], Split(t), Split(b));
      }
    }
  }

  /** Extending the first field of a list of fields, then appending more fields. */
  lemma HeadConcat(h: string, x: seq<string>, y: seq<string>)
    requires |x| >= 1
    ensures [h + (x + y)[0]] + (x + y)[1..] == ([h + x[0]] + x[1..]) + y
  {
    assert (x + y)[0] == x[0];
    assert (x + y)[1..] == x[1..] + y;
  }

  /** Joining elements that hold no slash and splitting again gives them back. */
  lemma {:induction false} SplitJoin(segs: seq<string>)
    requires |segs| >= 1 && NoSlashIn(segs)
    ensures Split(JoinSlash(segs)) == segs
  {
    if |segs| == 1 {
      SplitNoSlash(segs[0]);
    } else {
      SplitJoin(segs[1..]);
      SplitAppend(segs[0], JoinSlash(segs[1..]));
      SplitNoSlash(segs[0]);
      assert [segs[0]] + segs[1..] == segs;
    }
  }

  /** The fields of an absolute path written out from its fields. */
  lemma SplitRooted(fields: seq<string>)
    requires |fields| >= 1 && NoSlashIn(fields)
    ensures Split([Slash] + JoinSlash(fields)) == [[]] + fields
  {
    SplitAppend([], JoinSlash(fields));
    assert [] + [Slash] + JoinSlash(fields) == [Slash] + JoinSlash(fields);
    SplitJoin(fields);
  }

  /** Splitting a string and joining the fields gives the string back. */
  lemma {:induction false} JoinSplit(s: string)
    ensures JoinSlash(Split(s)) == s
  {
    if s != [] {
      JoinSplit(s[1..]);
      var rest := Split(s[1..]);
      if s[0] == Slash {
        assert ([[]] + rest)[1..] == rest;
        assert s == [Slash] + s[1..];
      } else {
        var r := [[s[0]] + rest[0]] + rest[1..];
        if |rest| == 1 {
          assert s == [s[0]] + rest[0];
        } else {
          assert rest == [rest[0]] + rest[1..];
          assert JoinSlash(rest) == rest[0] + [Slash] + JoinSlash(rest[1..]);
          assert r[1..] == rest[1..];
          assert s == [s[0]] + s[1..];
        }
      }
    }
  }

  /** `JoinSlash` built from the back. */
  lemma {:induction false} JoinSlashSnoc(init: seq<string>, last: string)
    requires init != []
    ensures JoinSlash(init + [last]) == JoinSlash(init) + [Slash] + last
  {
    if |init| == 1 {
      assert (init + [last])[1..] == [last];
    } else {
      JoinSlashSnoc(init[1..], last);
      assert (init + [last])[1..] == init[1..] + [last];
    }
  }

  // ---------------------------------------------------------------------
  // Normalisation

  /**
   * The shape of what `Clean` keeps: names, and for a relative path a run of
   * `..` in front of them.
   */
  predicate Canonical(rooted: bool, segs: seq<string>) {
    && (forall i :: 0 <= i < |segs| ==> IsName(segs[i]) || (!rooted && segs[i] == ".."))
    && (forall i, j :: 0 <= i < j < |segs| && segs[j] == ".." ==> segs[i] == "..")
  }

  lemma {:induction false} NormalizeAppend(rooted: bool, stack: seq<string>, xs: seq<string>, ys: seq<string>)
    ensures Normalize(rooted, stack, xs + ys) == Normalize(rooted, Normalize(rooted, stack, xs), ys)
    decreases |xs|
  {
    if xs == [] {
      assert xs + ys == ys;
    } else {
      assert (xs + ys)[0] == xs[0];
      assert (xs + ys)[1..] == xs[1..] + ys;
      NormalizeAppend(rooted, Step(rooted, stack, xs[0]), xs[1..], ys);
    }
  }

  /** Whatever the fields, the scan keeps only names (and leading `..` of a relative path). */
  lemma {:induction false} NormalizeCanonical(rooted: bool, stack: seq<string>, fields: seq<string>)
    requires Canonical(rooted, stack) && NoSlashIn(fields)
    ensures Canonical(rooted, Normalize(rooted, stack, fields))
    decreases |fields|
  {
    if fields != [] {
      var f := fields[0];
      var next := Step(rooted, stack, f);
      assert Slash !in f;
      if f == ".." && !(|stack| > 0 && stack[|stack| - 1] != "..") && !rooted {
        assert next == stack + [".."];
        forall i, j | 0 <= i < j < |next| && next[j] == ".."
          ensures next[i] == ".."
        {
          if j == |stack| && |stack| > 0 {
            assert stack[|stack| - 1] == "..";
            if i < |stack| - 1 {
              assert stack[i] == "..";
            }
          }
        }
      }
      assert Canonical(rooted, next);
      NormalizeCanonical(rooted, next, fields[1..]);
    }
  }

  /** Fields that are already in canonical shape pass through the scan unchanged. */
  lemma {:induction false} NormalizeCanonicalIdentity(rooted: bool, p: seq<string>, q: seq<string>)
    requires Canonical(rooted, p + q)
    ensures Normalize(rooted, p, q) == p + q
    decreases |q|
  {
    if q != [] {
      var f := q[0];
      assert (p + q)[|p|] == f;
      if f == ".." {
        assert !rooted;
        if |p| > 0 {
          assert (p + q)[|p| - 1] == "..";
        }
        assert Step(rooted, p, f) == p + [f];
      } else {
        assert IsName(f);
        assert Step(rooted, p, f) == p + [f];
      }
      assert (p + [f]) + q[1..] == p + q;
      NormalizeCanonicalIdentity(rooted, p + [f], q[1..]);
    }
  }

  /** Fields without `..` only add their names to the stack. */
  lemma {:induction false} NormalizeWithoutUp(rooted: bool, stack: seq<string>, fields: seq<string>)
    requires forall i :: 0 <= i < |fields| ==> fields[i] != ".."
    ensures Normalize(rooted, stack, fields) == stack + Names(fields)
    decreases |fields|
  {
    if fields != [] {
      var f, rest := fields[0], fields[1..];
      forall i | 0 <= i < |rest|
        ensures rest[i] != ".."
      {
        assert rest[i] == fields[i + 1];
      }
      if f == [] || f == "." {
        assert Step(rooted, stack, f) == stack;
        NormalizeWithoutUp(rooted, stack, rest);
      } else {
        assert f != "..";
        assert Step(rooted, stack, f) == stack + [f];
        NormalizeWithoutUp(rooted, stack + [f], rest);
        assert stack + [f] + Names(rest) == stack + ([f] + Names(rest));
      }
    }
  }

  /** The fields that name something, in order. */
  function Names(fields: seq<string>): seq<string> {
    if fields == [] then []
    else if fields[0] == [] || fields[0] == "." then Names(fields[1..])
    else [fields[0]] + Names(fields[1..])
  }

  /** The elements `Clean` keeps of any path are in canonical shape. */
  lemma SegmentsCanonical(p: string)
    ensures Canonical(IsAbs(p), Segments(p))
  {
    SplitFields(p);
    NormalizeCanonical(IsAbs(p), [], Split(p));
  }

  /** An absolute path made of names is its own clean form. */
  lemma CleanRendered(c: seq<string>)
    requires AllNames(c)
    ensures Segments(Render(true, c)) == c
    ensures Clean(Render(true, c)) == Render(true, c)
  {
    var q := Render(true, c);
    assert IsAbs(q);
    SplitAppend([], JoinSlash(c));
    assert q == [] + [Slash] + JoinSlash(c);
    if c == [] {
      assert Split(q) == [[], []];
      assert Normalize(true, [], [[]]) == [];
    } else {
      SplitJoin(c);
      assert Split(q) == [[]] + c;
      assert Canonical(true, [] + c);
      NormalizeCanonicalIdentity(true, [], c);
    }
  }

  /** A non-empty relative path in canonical shape is its own clean form. */
  lemma CleanRenderedRelative(c: seq<string>)
    requires c != [] && Canonical(false, c)
    ensures Clean(JoinSlash(c)) == JoinSlash(c)
  {
    assert c[0] != [] && c[0][0] != Slash;
    assert JoinSlash(c)[0] == c[0][0] by {
      if |c| > 1 {
        assert JoinSlash(c) == c[0] + [Slash] + JoinSlash(c[1..]);
      }
    }
    SplitJoin(c);
    assert c == [] + c;
    NormalizeCanonicalIdentity(false, [], c);
  }

  /** `Clean` is idempotent: a cleaned path is its own clean form. */
  lemma CleanIdempotent(p: string)
    ensures Clean(Clean(p)) == Clean(p)
  {
    if p != [] {
      var c := Segments(p);
      SegmentsCanonical(p);
      if IsAbs(p) {
        CleanRendered(c);
      } else if c == [] {
        SplitNoSlash(".");
      } else {
        CleanRenderedRelative(c);
      }
    }
  }

  // ---------------------------------------------------------------------
  // Joining onto an absolute root

  /** A clean absolute path consists of names only: no empty, `.` or `..` element. */
  lemma AbsoluteSegmentsAreNames(p: string)
    requires IsAbs(p)
    ensures AllNames(Segments(p))
  {
    SegmentsCanonical(p);
  }

  /**
   * Joining any request path onto an absolute root scans the request's
   * fields on top of the root's clean elements; the result is absolute, made
   * of names only, and `Abs` leaves it as it is.
   */
  lemma JoinOntoAbsolute(root: string, req: string, cwd: Option<string>)
    requires IsAbs(root)
    ensures Segments(root + [Slash] + req) == Normalize(true, Segments(root), Split(req))
    ensures AllNames(Segments(root + [Slash] + req))
    ensures Join(root, req) == Render(true, Segments(root + [Slash] + req))
    ensures IsAbs(Join(root, req))
    ensures Abs(Join(root, req), cwd) == Some(Join(root, req))
  {
    var p := root + [Slash] + req;
    assert IsAbs(p);
    SplitAppend(root, req);
    NormalizeAppend(true, [], Split(root), Split(req));
    AbsoluteSegmentsAreNames(p);
    CleanRendered(Segments(p));
  }

  /** Scanning names only appends them. */
  lemma NormalizeNames(stack: seq<string>, names: seq<string>)
    requires AllNames(stack) && AllNames(names)
    ensures Normalize(true, stack, names) == stack + names
  {
    assert Canonical(true, stack + names);
    NormalizeCanonicalIdentity(true, stack, names);
  }

  // ---------------------------------------------------------------------
  // Character prefixes of joined names

  /** The segment-aware notion of "under": `r`'s elements start `s`. */
  predicate SegmentPrefix(r: seq<string>, s: seq<string>) {
    |r| <= |s| && s[..|r|] == r
  }

  /**
   * What a character prefix of joined names amounts to: all but the last
   * element agree, and the last element of `r` need only be a character
   * prefix of the corresponding element of `s`.
   */
  predicate LoosePrefix(r: seq<string>, s: seq<string>) {
    r == [] || (|r| <= |s| && r[..|r| - 1] == s[..|r| - 1] && r[|r| - 1] <= s[|r| - 1])
  }

  /**
   * Position `i` of `u` holds the slash when position `i` of `v` holds
   * character `j` of `w`: a slash in a string without one.
   */
  lemma CharAt(u: string, v: string, w: string, i: int, j: int)
    ensures 0 <= i < |u| && 0 <= i < |v| && 0 <= j < |w| && u[i] == Slash && v[i] == w[j] && (u <= v || v <= u) ==> Slash in w
  {
    if 0 <= i < |u| && 0 <= i < |v| && 0 <= j < |w| && (u <= v || v <= u) {
      assert u[i] == v[i];
    }
  }

  lemma PrefixAtSlash(a: string, b: string, x: string, y: string)
    requires Slash !in a && Slash !in b
    ensures (a + [Slash] + x <= b + [Slash] + y) <==> (a == b && x <= y)
  {
    var l, r := a + [Slash] + x, b + [Slash] + y;
    if l <= r {
      if |a| < |b| {
        CharAt(l, r, b, |a|, |a|);
        assert false;
      } else if |a| > |b| {
        CharAt(r, l, a, |b|, |b|);
        assert false;
      } else {
        assert a == l[..|a|] == r[..|a|] == b;
        assert x == l[|a| + 1..];
        assert forall i :: 0 <= i < |x| ==> x[i] == l[|a| + 1 + i] == r[|a| + 1 + i] == y[i];
      }
    }
  }

  lemma NamePrefixOfJoin(a: string, s: seq<string>)
    requires Slash !in a && s != [] && NoSlashIn(s)
    ensures a <= JoinSlash(s) <==> a <= s[0]
  {
    if |s| > 1 {
      var j, n0 := JoinSlash(s), |s[0]|;
      assert j == s[0] + [Slash] + JoinSlash(s[1..]);
      if a <= j && |a| > n0 {
        CharAt(j, a, a, n0, n0);
        assert false;
      }
      if a <= s[0] {
        assert s[0] <= j;
      }
    }
  }

  /** A character prefix of joined elements is exactly a loose segment prefix. */
  lemma {:induction false} JoinPrefixIff(r: seq<string>, s: seq<string>)
    requires AllNames(r) && NoSlashIn(s)
    ensures JoinSlash(r) <= JoinSlash(s) <==> LoosePrefix(r, s)
  {
    if r == [] {
    } else if |r| == 1 {
      if s != [] {
        NamePrefixOfJoin(r[0], s);
      }
    } else if |s| <= 1 {
      var j := JoinSlash(r);
      assert j == r[0] + [Slash] + JoinSlash(r[1..]);
      assert j[|r[0]|] == Slash;
      if s != [] && j <= s[0] {
        assert false;
      }
    } else {
      assert JoinSlash(r) == r[0] + [Slash] + JoinSlash(r[1..]);
      assert JoinSlash(s) == s[0] + [Slash] + JoinSlash(s[1..]);
      PrefixAtSlash(r[0], s[0], JoinSlash(r[1..]), JoinSlash(s[1..]));
      JoinPrefixIff(r[1..], s[1..]);
      LoosePrefixCons(r, s);
    }
  }

  lemma LoosePrefixCons(r: seq<string>, s: seq<string>)
    requires |r| >= 2 && |s| >= 1
    ensures LoosePrefix(r, s) <==> r[0] == s[0] && LoosePrefix(r[1..], s[1..])
  {
    var n := |r|;
    if LoosePrefix(r, s) {
      assert r[0] == r[..n - 1][0] == s[..n - 1][0] == s[0];
      assert r[1..][..n - 2] == r[..n - 1][1..];
      assert s[1..][..n - 2] == s[..n - 1][1..];
    }
    if r[0] == s[0] && LoosePrefix(r[1..], s[1..]) {
      assert r[..n - 1] == [r[0]] + r[1..][..n - 2];
      assert s[..n - 1] == [s[0]] + s[1..][..n - 2];
    }
  }

  /** Segment containment implies the loose form; the converse fails only by a longer last name. */
  lemma SegmentPrefixVersusLoose(r: seq<string>, s: seq<string>)
    ensures SegmentPrefix(r, s) ==> LoosePrefix(r, s)
    ensures LoosePrefix(r, s) && !SegmentPrefix(r, s) ==>
      r != [] && r[..|r| - 1] == s[..|r| - 1] && r[|r| - 1] < s[|r| - 1]
  {
    if r != [] && |r| <= |s| {
      var n := |r|;
      if SegmentPrefix(r, s) {
        assert r[..n - 1] == s[..n][..n - 1];
        assert r[n - 1] == s[..n][n - 1];
      }
      if LoosePrefix(r, s) && r[n - 1] == s[n - 1] {
        assert s[..n] == s[..n - 1] + [s[n - 1]];
        assert r == r[..n - 1] + [r[n - 1]];
      }
    }
  }

  // ---------------------------------------------------------------------
  // Dir and Rel

  lemma LastSlashBefore(a: string, b: string)
    requires a != [] && a[|a| - 1] == Slash && Slash !in b
    ensures LastSlash(a + b) == |a| - 1
  {
    var i := LastSlash(a + b);
    assert (a + b)[|a| - 1] == Slash;
    if i >= |a| {
      assert false;
    }
  }

  /** The directory part of a clean absolute path whose parent elements are `init`. */
  function ParentPrefix(init: seq<string>): string {
    if init == [] then [Slash] else [Slash] + JoinSlash(init) + [Slash]
  }

  lemma CleanParentPrefix(init: seq<string>)
    requires AllNames(init)
    ensures Clean(ParentPrefix(init)) == Render(true, init)
  {
    var a := ParentPrefix(init);
    if init == [] {
      assert Split(a) == [[], []] by {
        SplitAppend([], []);
        assert a == [] + [Slash] + [];
      }
      assert Normalize(true, [], [[]]) == [];
    } else {
      assert a == [] + [Slash] + (JoinSlash(init) + [Slash] + []);
      SplitAppend([], JoinSlash(init) + [Slash] + []);
      SplitAppend(JoinSlash(init), []);
      SplitJoin(init);
      assert Split(a) == [[]] + init + [[]];
      NormalizeAppend(true, [], [[]] + init, [[]]);
      NormalizeAppend(true, [], [[]], init);
      NormalizeNames([], init);
      assert [] + init == init;
    }
  }

  /** `Dir` of a clean absolute path drops its last element. */
  lemma DirDropsLast(n: seq<string>)
    requires n != [] && AllNames(n)
    ensures Dir(Render(true, n)) == Render(true, n[..|n| - 1])
  {
    var init, last := n[..|n| - 1], n[|n| - 1];
    assert n == init + [last];
    var a := ParentPrefix(init);
    if init != [] {
      JoinSlashSnoc(init, last);
    }
    assert Render(true, n) == a + last;
    LastSlashBefore(a, last);
    assert (a + last)[..|a|] == a;
    CleanParentPrefix(init);
  }

  /** Going up `m` times from clean names drops the last `m` of them. */
  lemma {:induction false} NormalizeUps(b: seq<string>, m: nat)
    requires AllNames(b) && m <= |b|
    ensures Normalize(true, b, Ups(m)) == b[..|b| - m]
  {
    if m > 0 {
      NormalizeAppend(true, b, Ups(m - 1), [".."]);
      NormalizeUps(b, m - 1);
      var c := b[..|b| - m + 1];
      assert c[|c| - 1] == b[|b| - m];
      assert c[..|c| - 1] == b[..|b| - m];
    }
  }

  /** Distinct clean absolute paths have distinct elements. */
  lemma RenderInjective(b: seq<string>, t: seq<string>)
    requires AllNames(b) && AllNames(t)
    ensures Render(true, b) == Render(true, t) <==> b == t
  {
    CleanRendered(b);
    CleanRendered(t);
  }

  /** The walk `Rel` takes between two different lists of names leads from one to the other. */
  /** Lists whose common prefix is all of both are equal. */
  lemma CommonPrefixOfEqual(b: seq<string>, t: seq<string>)
    requires |b| == CommonPrefix(b, t) == |t|
    ensures b == t
  {
    assert b == b[..|b|] && t == t[..|t|];
  }

  /** Sequences agreeing on their first `n` elements share at least `n`. */
  lemma {:induction false} CommonPrefixAtLeast(b: seq<string>, t: seq<string>, n: nat)
    requires n <= |b| && n <= |t| && b[..n] == t[..n]
    ensures CommonPrefix(b, t) >= n
  {
    if n > 0 {
      assert b[0] == b[..n][0] == t[..n][0] == t[0];
      assert b[1..][..n - 1] == b[1..n] == t[1..n] == t[1..][..n - 1];
      CommonPrefixAtLeast(b[1..], t[1..], n - 1);
    }
  }

  lemma RelSteps(b: seq<string>, t: seq<string>)
    requires AllNames(b) && AllNames(t) && b != t
    ensures var k := CommonPrefix(b, t);
      var steps := Ups(|b| - k) + t[k..];
      steps != [] && NoSlashIn(steps) && Normalize(true, b, steps) == t
  {
    var k := CommonPrefix(b, t);
    var steps := Ups(|b| - k) + t[k..];
    assert steps != [] by {
      if |b| == k && |t| == k {
        CommonPrefixOfEqual(b, t);
        assert false;
      }
    }
    assert NoSlashIn(steps) by {
      StepsHaveNoSlash(|b| - k, t[k..]);
    }
    UpThenDown(b, t, k);
  }

  /** Climbing out of `b` to its first `k` elements and then descending into `t`
      reaches `t` when the two share those elements. */
  lemma UpThenDown(b: seq<string>, t: seq<string>, k: nat)
    requires AllNames(b) && AllNames(t)
    requires k <= |b| && k <= |t| && b[..k] == t[..k]
    ensures Normalize(true, b, Ups(|b| - k) + t[k..]) == t
  {
    var ups, down := Ups(|b| - k), t[k..];
    assert Normalize(true, b, ups) == t[..k] by {
      NormalizeUps(b, |b| - k);
    }
    assert Normalize(true, t[..k], down) == t by {
      NormalizeNames(t[..k], down);
      assert t[..k] + down == t;
    }
    NormalizeAppend(true, b, ups, down);
  }

  lemma StepsHaveNoSlash(m: nat, down: seq<string>)
    requires AllNames(down)
    ensures NoSlashIn(Ups(m) + down)
  {
    var steps := Ups(m) + down;
    forall i | 0 <= i < |steps| ensures Slash !in steps[i] {
      if i >= m {
        assert steps[i] == down[i - m];
      }
    }
  }

  /**
   * Between two absolute paths `Rel` never fails, and joining its result
   * back onto the base gives the clean target: `Join(base, Rel(base, targ))`
   * is `Clean(targ)`.
   */
  lemma RelJoinRoundTrip(base: string, targ: string)
    requires IsAbs(base) && IsAbs(targ)
    ensures Rel(base, targ).Some?
    ensures Join(base, Rel(base, targ).value) == Clean(targ)
  {
    var b, t := Segments(base), Segments(targ);
    AbsoluteSegmentsAreNames(base);
    AbsoluteSegmentsAreNames(targ);
    assert Rel(base, targ).Some? && Render(true, Normalize(true, b, Split(Rel(base, targ).value))) == Clean(targ) by {
      if Clean(targ) == Clean(base) {
        SplitNoSlash(".");
        assert Normalize(true, b, ["."]) == b;
      } else {
        RelSteps(b, t);
        SplitJoin(Ups(|b| - CommonPrefix(b, t)) + t[CommonPrefix(b, t)..]);
      }
    }
    JoinOntoAbsolute(base, Rel(base, targ).value, None);
  }

  /** `Rel` of a path nested under the base is the list of elements below the base. */
  lemma RelBelow(base: string, targ: string)
    requires IsAbs(base) && IsAbs(targ)
    requires SegmentPrefix(Segments(base), Segments(targ)) && Segments(base) != Segments(targ)
    ensures Rel(base, targ) == Some(JoinSlash(Segments(targ)[|Segments(base)|..]))
  {
    var b, t := Segments(base), Segments(targ);
    AbsoluteSegmentsAreNames(base);
    AbsoluteSegmentsAreNames(targ);
    RenderInjective(b, t);
    var k := CommonPrefix(b, t);
    if k < |b| {
      assert false;
    }
    assert Ups(0) + t[k..] == t[k..];
  }
}
