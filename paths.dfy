/** The POSIX path handling the validators rely on: `str.split('/')`,
    `pathlib.PurePosixPath` (its parts, `str`, `.name` and the `/`
    operator), `os.path.realpath` as a lexical normalisation of components
    (symbolic links taken as already resolved) and `os.path.commonpath`. */
module Paths {
  import opened Text
  import opened Errors

  /** `s.split('/')`. */
  function Split(s: string): (parts: seq<string>)
    ensures |parts| >= 1
    ensures forall i :: 0 <= i < |parts| ==> '/' !in parts[i]
  {
    if s == [] then [""]
    else
      var rest := Split(s[1..]);
      if s[0] == '/' then [""] + rest else [[s[0]] + rest[0]] + rest[1..]
  }

  /** `'/'.join(parts)`. */
  function Join(parts: seq<string>): string
    requires |parts| >= 1
  {
    if |parts| == 1 then parts[0] else parts[0] + "/" + Join(parts[1..])
  }

  /** Splitting loses nothing: joining the pieces gives back the string. */
  lemma {:induction false} JoinSplit(s: string)
    ensures Join(Split(s)) == s
  {
    if s != [] {
      var rest := Split(s[1..]);
      JoinSplit(s[1..]);
      if s[0] == '/' {
        assert Split(s) == [""] + rest;
        assert Join([""] + rest) == "" + "/" + Join(rest);
      } else {
        var parts := [[s[0]] + rest[0]] + rest[1..];
        assert Split(s) == parts;
        if |rest| == 1 {
          assert Join(parts) == [s[0]] + rest[0];
        } else {
          assert parts[1..] == rest[1..];
          assert Join(rest) == rest[0] + "/" + Join(rest[1..]);
        }
      }
    }
  }

  /** A string without a separator is split into itself alone. */
  lemma {:induction false} SplitNoSeparator(s: string)
    requires '/' !in s
    ensures Split(s) == [s]
  {
    if s != [] {
      assert '/' !in s[1..];
      SplitNoSeparator(s[1..]);
      assert [s[0]] + s[1..] == s;
    }
  }

  /** Splitting `path + "/" + child` splits `path` and adds `child`. */
  lemma SplitAppend(path: string, child: string)
    requires '/' !in child
    ensures Split(path + "/" + child) == Split(path) + [child]
  {
    SplitNoSeparator(child);
    SplitSeparator(path, child);
  }

  /** Splitting after one more leading character. */
  lemma SplitCons(c: char, s: string)
    ensures Split([c] + s) ==
      if c == '/' then [""] + Split(s) else [[c] + Split(s)[0]] + Split(s)[1..]
  {
    assert ([c] + s)[1..] == s;
  }

  /** Appending text without a separator extends the last piece. */
  lemma {:induction false} SplitExtend(path: string, x: string)
    requires '/' !in x
    ensures var pieces := Split(path);
      Split(path + x) == pieces[..|pieces| - 1] + [pieces[|pieces| - 1] + x]
  {
    if path == [] {
      SplitNoSeparator(x);
      assert path + x == x;
    } else {
      var c, tail := path[0], path[1..];
      assert path == [c] + tail;
      AppendAssoc([c], tail, x);
      SplitExtend(tail, x);
      SplitCons(c, tail);
      SplitCons(c, tail + x);
      var rest := Split(tail);
      var restX := Split(tail + x);
      if c != '/' {
        ExtendFirstPiece(c, rest, restX, x);
      }
    }
  }

  /** Prefixing the first piece commutes with extending the last one. */
  lemma ExtendFirstPiece(c: char, rest: seq<string>, restX: seq<string>, x: string)
    requires |rest| >= 1 && restX == rest[..|rest| - 1] + [rest[|rest| - 1] + x]
    ensures var pieces := [[c] + rest[0]] + rest[1..];
      [[c] + restX[0]] + restX[1..] == pieces[..|pieces| - 1] + [pieces[|pieces| - 1] + x]
  {
    if |rest| == 1 {
      AppendAssoc([c], rest[0], x);
    } else {
      assert restX[0] == rest[0];
      assert restX[1..] == rest[1..|rest| - 1] + [rest[|rest| - 1] + x];
    }
  }

  /** Splitting at a separator splits each side: `(x + "/" + y).split('/')`
      is `x.split('/') + y.split('/')`. */
  lemma {:induction false} SplitSeparator(x: string, y: string)
    ensures Split(x + "/" + y) == Split(x) + Split(y)
  {
    if x == [] {
      assert x + "/" + y == ['/'] + y;
      SplitCons('/', y);
    } else {
      var c, tail := x[0], x[1..];
      var t := tail + "/" + y;
      assert x == [c] + tail;
      assert x + "/" + y == [c] + t;
      SplitSeparator(tail, y);
      SplitCons(c, t);
      SplitCons(c, tail);
      if c != '/' {
        PrefixFirstPiece(c, Split(tail), Split(y));
      } else {
        AppendAssoc([""], Split(tail), Split(y));
      }
    }
  }

  /** Prefixing the first piece commutes with appending more pieces. */
  lemma PrefixFirstPiece(c: char, a: seq<string>, b: seq<string>)
    requires |a| >= 1
    ensures [[c] + (a + b)[0]] + (a + b)[1..] == ([[c] + a[0]] + a[1..]) + b
  {
    assert (a + b)[1..] == a[1..] + b;
  }

  /** Splitting the join of separator-free pieces gives the pieces back. */
  lemma {:induction false} SplitJoin(pieces: seq<string>)
    requires |pieces| >= 1 && forall i :: 0 <= i < |pieces| ==> '/' !in pieces[i]
    ensures Split(Join(pieces)) == pieces
  {
    SplitNoSeparator(pieces[0]);
    if |pieces| > 1 {
      var rest := pieces[1..];
      SplitJoin(rest);
      assert Join(pieces) == pieces[0] + "/" + Join(rest);
      SplitSeparator(pieces[0], Join(rest));
      assert pieces == [pieces[0]] + rest;
    }
  }

  /** A component `pathlib` keeps: not empty, not `.`, no separator. */
  predicate IsPart(c: string) {
    c != "" && c != "." && '/' !in c
  }

  /** The pieces of a split that `pathlib` keeps (it drops `''` and `'.'`). */
  function KeepParts(pieces: seq<string>): (parts: seq<string>)
    requires forall i :: 0 <= i < |pieces| ==> '/' !in pieces[i]
    ensures forall i :: 0 <= i < |parts| ==> IsPart(parts[i])
    ensures |parts| <= |pieces|
  {
    if pieces == [] then []
    else
      var rest := KeepParts(pieces[1..]);
      if pieces[0] == "" || pieces[0] == "." then rest else [pieces[0]] + rest
  }

  /** `pathlib` filters the pieces in order: the pieces of a concatenation
      are kept piece by piece (`KeepPartsCons` says what happens to a single
      piece). */
  lemma {:induction false} KeepPartsAppend(a: seq<string>, b: seq<string>)
    requires forall i :: 0 <= i < |a| ==> '/' !in a[i]
    requires forall i :: 0 <= i < |b| ==> '/' !in b[i]
    ensures KeepParts(a + b) == KeepParts(a) + KeepParts(b)
  {
    if a == [] {
      assert a + b == b;
    } else {
      var p, tail := a[0], a[1..];
      assert a == [p] + tail;
      AppendAssoc([p], tail, b);
      KeepPartsAppend(tail, b);
      KeepPartsCons(p, tail);
      KeepPartsCons(p, tail + b);
      AppendAssoc(if p == "" || p == "." then [] else [p], KeepParts(tail), KeepParts(b));
    }
  }

  /** A leading piece is kept exactly when it is neither `''` nor `.`, and
      the rest is filtered after it. */
  lemma KeepPartsCons(p: string, rest: seq<string>)
    requires '/' !in p && forall i :: 0 <= i < |rest| ==> '/' !in rest[i]
    ensures KeepParts([p] + rest) == (if p == "" || p == "." then [] else [p]) + KeepParts(rest)
  {
    assert ([p] + rest)[1..] == rest;
  }

  /** Pieces that are all parts are kept as they are. */
  lemma {:induction false} KeepPartsOfParts(parts: seq<string>)
    requires forall i :: 0 <= i < |parts| ==> IsPart(parts[i]) && '/' !in parts[i]
    ensures KeepParts(parts) == parts
  {
    if parts != [] {
      KeepPartsOfParts(parts[1..]);
    }
  }

  /** A `PurePosixPath`: whether it has the root `/`, and its parts below the root. */
  datatype PurePath = PurePath(absolute: bool, parts: seq<string>)

  predicate ValidPath(p: PurePath) {
    forall i :: 0 <= i < |p.parts| ==> IsPart(p.parts[i])
  }

  /** `Path(s)`. */
  function ParsePath(s: string): (p: PurePath)
    ensures ValidPath(p)
    ensures p.absolute <==> |s| > 0 && s[0] == '/'
  {
    PurePath(|s| > 0 && s[0] == '/', KeepParts(Split(s)))
  }

  /** `str(p)`. */
  function PathStr(p: PurePath): string {
    if p.absolute then (if p.parts == [] then "/" else "/" + Join(p.parts))
    else if p.parts == [] then "."
    else Join(p.parts)
  }

  /** `Path(str(p)) == p`: parsing the text of a path gives back its root
      flag and all its parts, in order. */
  lemma ParsePathStr(p: PurePath)
    requires ValidPath(p)
    ensures ParsePath(PathStr(p)) == p
  {
    if p.parts != [] {
      SplitJoin(p.parts);
      KeepPartsOfParts(p.parts);
      var text := Join(p.parts);
      JoinStartsWithFirst(p.parts);
      if p.absolute {
        SplitCons('/', text);
        assert ("/" + text)[1..] == text;
        assert ([""] + p.parts)[1..] == p.parts;
      } else {
        assert p.parts[0][0] in p.parts[0];
      }
    } else if p.absolute {
      assert Split("/") == [""] + Split("");
    } else {
      SplitNoSeparator(".");
    }
  }

  /** The join of non-empty pieces starts with the first piece's first
      character. */
  lemma JoinStartsWithFirst(pieces: seq<string>)
    requires |pieces| >= 1 && pieces[0] != ""
    ensures |Join(pieces)| > 0 && Join(pieces)[0] == pieces[0][0]
  {
  }

  /** `p.name`: the last part, or `''` when there is none. */
  function Name(p: PurePath): string {
    if p.parts == [] then "" else p.parts[|p.parts| - 1]
  }

  /** `base / segment`: an absolute segment replaces the base, otherwise its
      parts are appended. */
  function JoinPath(base: PurePath, segment: string): (p: PurePath)
    requires ValidPath(base)
    ensures ValidPath(p)
  {
    if |segment| > 0 && segment[0] == '/' then ParsePath(segment)
    else PurePath(base.absolute, base.parts + KeepParts(Split(segment)))
  }

  /** Appending a segment without separator adds it as one part, except that
      `''` and `'.'` add nothing. */
  lemma JoinPathComponent(base: PurePath, segment: string)
    requires ValidPath(base) && '/' !in segment
    ensures JoinPath(base, segment).absolute == base.absolute
    ensures JoinPath(base, segment).parts ==
            base.parts + (if segment == "" || segment == "." then [] else [segment])
  {
    SplitNoSeparator(segment);
    assert segment != [] ==> segment[0] in segment;
  }

  /** A component `realpath` can leave in its result. */
  predicate IsName(c: string) {
    IsPart(c) && c != ".."
  }

  predicate Canonical(cs: seq<string>) {
    forall i :: 0 <= i < |cs| ==> IsName(cs[i])
  }

  /** One step of `realpath` over a component: `''` and `.` stay put, `..`
      climbs one level (never above the root), anything else descends. */
  function Step(stack: seq<string>, c: string): (next: seq<string>)
    requires Canonical(stack) && '/' !in c
    ensures Canonical(next)
  {
    if c == "" || c == "." then stack
    else if c == ".." then (if stack == [] then [] else stack[..|stack| - 1])
    else stack + [c]
  }

  /** The lexical part of `realpath`: the steps over the components, left
      to right. */
  function Normalize(stack: seq<string>, comps: seq<string>): (r: seq<string>)
    requires Canonical(stack)
    requires forall i :: 0 <= i < |comps| ==> '/' !in comps[i]
    ensures Canonical(r)
    decreases comps
  {
    if comps == [] then stack else Normalize(Step(stack, comps[0]), comps[1..])
  }

  /** Normalising one more component is one more step. */
  lemma {:induction false} NormalizeSnoc(stack: seq<string>, comps: seq<string>, c: string)
    requires Canonical(stack) && '/' !in c
    requires forall i :: 0 <= i < |comps| ==> '/' !in comps[i]
    ensures Normalize(stack, comps + [c]) == Step(Normalize(stack, comps), c)
    decreases comps
  {
    if comps == [] {
      assert Normalize(Step(stack, c), []) == Step(stack, c);
    } else {
      assert (comps + [c])[1..] == comps[1..] + [c];
      NormalizeSnoc(Step(stack, comps[0]), comps[1..], c);
    }
  }

  /** Normalising components that are already canonical only appends them:
      `realpath` of a canonical path is that path. */
  lemma {:induction false} NormalizeCanonical(stack: seq<string>, comps: seq<string>)
    requires Canonical(stack) && Canonical(comps)
    ensures Normalize(stack, comps) == stack + comps
    decreases comps
  {
    if comps != [] {
      assert Step(stack, comps[0]) == stack + [comps[0]];
      NormalizeCanonical(stack + [comps[0]], comps[1..]);
      assert stack + [comps[0]] + comps[1..] == stack + comps;
    }
  }

  /** `os.path.realpath(s)` as the list of components below `/`, resolving a
      relative path against the working directory `cwd`. The operating system
      refuses a path with an embedded NUL, which `realpath` surfaces as a
      `ValueError`: that is `None`. */
  function RealPath(s: string, cwd: seq<string>): (r: Option<seq<string>>)
    requires Canonical(cwd)
    ensures r.None? <==> '\0' in s
    ensures r.Some? ==> Canonical(r.value)
  {
    if '\0' in s then None
    else Some(Normalize(if |s| > 0 && s[0] == '/' then [] else cwd, Split(s)))
  }

  predicate IsPrefix(prefix: seq<string>, s: seq<string>) {
    |prefix| <= |s| && s[..|prefix|] == prefix
  }

  /** The components of `os.path.commonpath` of two canonical paths: their
      longest common prefix. */
  function CommonPrefix(a: seq<string>, b: seq<string>): (r: seq<string>)
    ensures IsPrefix(r, a) && IsPrefix(r, b)
    ensures |r| == |a| || |r| == |b| || a[|r|] != b[|r|]
  {
    if a == [] || b == [] || a[0] != b[0] then []
    else [a[0]] + CommonPrefix(a[1..], b[1..])
  }

  /** The common prefix is `b` itself exactly when `b` is a prefix of `a`. */
  lemma CommonPrefixIsSecond(a: seq<string>, b: seq<string>)
    ensures CommonPrefix(a, b) == b <==> IsPrefix(b, a)
  {
  }
}
