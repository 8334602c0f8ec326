/** The input validators of the video editor: sandbox containment of paths,
    the timestamp format, the video file check and filename sanitising. */
module Security {
  import opened Text
  import opened Errors
  import opened Paths

  // ---------------------------------------------------------------------
  // is_safe_path
  // ---------------------------------------------------------------------

  /** `is_safe_path(path, base_dir)`: resolve both, and the path is safe when
      their common path is the resolved base. A `ValueError` from resolving
      (an embedded NUL) makes the answer `False` instead of escaping. */
  function IsSafePath(path: string, baseDir: string, cwd: seq<string>): (safe: bool)
    requires Canonical(cwd)
    ensures safe <==>
      '\0' !in path && '\0' !in baseDir &&
      IsPrefix(RealPath(baseDir, cwd).value, RealPath(path, cwd).value)
  {
    match (RealPath(path, cwd), RealPath(baseDir, cwd))
    case (Some(resolved), Some(base)) =>
      CommonPrefixIsSecond(resolved, base);
      CommonPrefix(resolved, base) == base
    case _ => false
  }

  /** The base directory itself is inside the sandbox. */
  lemma BaseIsSafe(baseDir: string, cwd: seq<string>)
    requires Canonical(cwd) && '\0' !in baseDir
    ensures IsSafePath(baseDir, baseDir, cwd)
  {
  }

  /** The last piece of a path, the one `realpath` takes last. */
  function LastPiece(path: string): string {
    var pieces := Split(path);
    pieces[|pieces| - 1]
  }

  /** `realpath` of a path whose last piece is a name: that name below the
      resolution of what comes before it. */
  lemma ResolveLast(path: string, cwd: seq<string>)
    requires Canonical(cwd) && '\0' !in path && IsName(LastPiece(path))
    ensures var pieces := Split(path);
      var start := if |path| > 0 && path[0] == '/' then [] else cwd;
      RealPath(path, cwd) == Some(Normalize(start, pieces[..|pieces| - 1]) + [LastPiece(path)])
  {
    var pieces := Split(path);
    var start := if |path| > 0 && path[0] == '/' then [] else cwd;
    assert pieces == pieces[..|pieces| - 1] + [LastPiece(path)];
    NormalizeSnoc(start, pieces[..|pieces| - 1], LastPiece(path));
  }

  /** Containment is by whole components, not by characters: a sibling whose
      name merely extends the base's last name (`/w/input2` next to
      `/w/input`) is outside it. */
  lemma SiblingIsNotSafe(baseDir: string, x: string, cwd: seq<string>)
    requires Canonical(cwd) && IsName(LastPiece(baseDir))
    requires x != "" && '/' !in x && '\0' !in x
    ensures !IsSafePath(baseDir + x, baseDir, cwd)
  {
    if '\0' !in baseDir {
      var pieces := Split(baseDir);
      var last := LastPiece(baseDir);
      SplitExtend(baseDir, x);
      assert LastPiece(baseDir + x) == last + x;
      assert Split(baseDir + x)[..|pieces| - 1] == pieces[..|pieces| - 1];
      assert |baseDir| > 0;
      assert (baseDir + x)[0] == baseDir[0];
      assert IsName(last + x) by {
        assert |last + x| >= 2;
        assert forall c :: c in last + x ==> c in last || c in x;
        if |last| == 1 {
          assert last == [last[0]] && last[0] != '.';
          assert (last + x)[0] == last[0];
        }
      }
      ResolveLast(baseDir, cwd);
      ResolveLast(baseDir + x, cwd);
      var n := |Normalize(if baseDir[0] == '/' then [] else cwd, pieces[..|pieces| - 1])|;
      assert RealPath(baseDir + x, cwd).value[n] == last + x;
      assert RealPath(baseDir, cwd).value[n] == last;
      assert |last + x| != |last|;
    }
  }

  lemma SplitParentName(baseDir: string, name: string)
    requires '/' !in name
    ensures Split(baseDir + "/../" + name) == Split(baseDir) + ["..", name]
  {
    SplitAppend(baseDir, "..");
    SplitAppend(baseDir + "/" + "..", name);
    assert baseDir + "/" + ".." + "/" + name == baseDir + "/../" + name;
  }

  /** Normalising `.. name` after a name replaces that name by `name`. */
  lemma NormalizeParentName(start: seq<string>, init: seq<string>, last: string, name: string)
    requires Canonical(start) && IsName(last) && IsName(name)
    requires forall i :: 0 <= i < |init| ==> '/' !in init[i]
    ensures Normalize(start, init + [last]) == Normalize(start, init) + [last]
    ensures Normalize(start, init + [last] + ["..", name]) == Normalize(start, init) + [name]
  {
    var parent := Normalize(start, init);
    var pieces := init + [last];
    NormalizeSnoc(start, init, last);
    NormalizeSnoc(start, pieces, "..");
    assert (parent + [last])[..|parent|] == parent;
    NormalizeSnoc(start, pieces + [".."], name);
    assert pieces + ["..", name] == (pieces + [".."]) + [name];
  }

  /** `realpath(base/../name)`: the parent of the resolved base, then `name`. */
  lemma ResolveParentName(baseDir: string, name: string, cwd: seq<string>)
    requires Canonical(cwd) && IsName(LastPiece(baseDir)) && '\0' !in baseDir
    requires IsName(name) && '\0' !in name
    ensures |baseDir| > 0
    ensures var pieces := Split(baseDir);
      var start := if baseDir[0] == '/' then [] else cwd;
      var parent := Normalize(start, pieces[..|pieces| - 1]);
      RealPath(baseDir + "/../" + name, cwd) == Some(parent + [name]) &&
      RealPath(baseDir, cwd) == Some(parent + [LastPiece(baseDir)])
  {
    var path := baseDir + "/../" + name;
    var pieces := Split(baseDir);
    var init := pieces[..|pieces| - 1];
    assert |baseDir| > 0;
    assert pieces == init + [LastPiece(baseDir)];
    SplitParentName(baseDir, name);
    ParentNameText(baseDir, name);
    var start := if baseDir[0] == '/' then [] else cwd;
    ResolveParentPieces(path, baseDir, cwd, start, init, LastPiece(baseDir), name);
  }

  /** `ResolveParentName` over the split pieces: `init + [last]` for the base,
      and the same followed by `..` and `name` for the path. */
  lemma ResolveParentPieces(path: string, baseDir: string, cwd: seq<string>, start: seq<string>,
                            init: seq<string>, last: string, name: string)
    requires Canonical(cwd) && IsName(last) && IsName(name)
    requires forall i :: 0 <= i < |init| ==> '/' !in init[i]
    requires '\0' !in path && '\0' !in baseDir
    requires Split(baseDir) == init + [last] && Split(path) == init + [last] + ["..", name]
    requires start == if |baseDir| > 0 && baseDir[0] == '/' then [] else cwd
    requires start == if |path| > 0 && path[0] == '/' then [] else cwd
    ensures RealPath(path, cwd) == Some(Normalize(start, init) + [name])
    ensures RealPath(baseDir, cwd) == Some(Normalize(start, init) + [last])
  {
    NormalizeParentName(start, init, last, name);
    RealPathOfPieces(path, cwd, start, init + [last] + ["..", name]);
    RealPathOfPieces(baseDir, cwd, start, init + [last]);
  }

  /** `realpath` of a NUL-free text normalises its split pieces from the
      root or from the working directory. */
  lemma RealPathOfPieces(s: string, cwd: seq<string>, start: seq<string>, pieces: seq<string>)
    requires Canonical(cwd) && '\0' !in s && Split(s) == pieces
    requires start == if |s| > 0 && s[0] == '/' then [] else cwd
    ensures RealPath(s, cwd) == Some(Normalize(start, pieces))
  {
  }

  /** `base/../name` starts like `base` and holds a NUL only if one of them does. */
  lemma ParentNameText(baseDir: string, name: string)
    requires |baseDir| > 0 && '\0' !in baseDir && '\0' !in name
    ensures var path := baseDir + "/../" + name;
      |path| > 0 && path[0] == baseDir[0] && '\0' !in path
  {
    assert baseDir + "/../" + name == baseDir + ['/', '.', '.', '/'] + name;
  }

  /** `/w/input2` is not inside `/w/input`. */
  lemma SiblingExample(cwd: seq<string>)
    requires Canonical(cwd)
    ensures !IsSafePath("/w/input2", "/w/input", cwd)
  {
    ResolveSplit("input");
    assert "/w/" + "input" == "/w/input";
    assert "/w/input" + "2" == "/w/input2";
    SiblingIsNotSafe("/w/input", "2", cwd);
  }

  lemma ResolveSplit(leaf: string)
    requires IsName(leaf)
    ensures Split("/w/" + leaf) == ["", "w", leaf]
  {
    assert Split("") == [""];
    SplitAppend("", "w");
    assert "" + "/" + "w" == "/w";
    SplitAppend("/w", leaf);
    assert "/w" + "/" + leaf == "/w/" + leaf;
  }

  /** Climbing out with `..` is judged after resolution:
      `base/../name` is inside `base` only when `name` is the base's own
      last name. */
  lemma TraversalIsSafeIff(baseDir: string, name: string, cwd: seq<string>)
    requires Canonical(cwd) && IsName(LastPiece(baseDir)) && '\0' !in baseDir
    requires IsName(name) && '\0' !in name
    ensures IsSafePath(baseDir + "/../" + name, baseDir, cwd) <==> name == LastPiece(baseDir)
  {
    ResolveParentName(baseDir, name, cwd);
    var pieces := Split(baseDir);
    var start := if baseDir[0] == '/' then [] else cwd;
    var parent := Normalize(start, pieces[..|pieces| - 1]);
    if name != LastPiece(baseDir) {
      assert (parent + [name])[|parent|] != (parent + [LastPiece(baseDir)])[|parent|];
    }
  }

  // ---------------------------------------------------------------------
  // validate_timestamp
  // ---------------------------------------------------------------------

  /** The pieces of a timestamp `(H:)?M:SS(.F)?`. */
  datatype Timestamp = Timestamp(hours: Option<string>, minutes: string, seconds: string,
                                 fraction: Option<string>)

  predicate DigitRun(s: string) {
    |s| >= 1 && AllDigits(s)
  }

  /** `[0-5]?\d` */
  predicate MinuteField(m: string) {
    1 <= |m| <= 2 && AllDigits(m) && (|m| == 2 ==> m[0] <= '5')
  }

  /** `[0-5]\d` */
  predicate SecondField(s: string) {
    |s| == 2 && AllDigits(s) && s[0] <= '5'
  }

  predicate WellFormed(t: Timestamp) {
    (t.hours.Some? ==> DigitRun(t.hours.value)) &&
    MinuteField(t.minutes) && SecondField(t.seconds) &&
    (t.fraction.Some? ==> DigitRun(t.fraction.value))
  }

  /** The text of a timestamp: the language `(\d+:)?[0-5]?\d:[0-5]\d(\.\d+)?`
      is the set of renderings of well-formed timestamps. */
  function Render(t: Timestamp): string {
    (if t.hours.Some? then t.hours.value + ":" else "") +
    t.minutes + ":" + t.seconds +
    (if t.fraction.Some? then "." + t.fraction.value else "")
  }

  /** The first position of `c` in `s`. */
  function FirstIndex(s: string, c: char): (r: Option<nat>)
    ensures r.Some? ==> r.value < |s| && s[r.value] == c && c !in s[..r.value]
    ensures r.None? ==> c !in s
  {
    if s == [] then None
    else if s[0] == c then Some(0)
    else match FirstIndex(s[1..], c)
      case None => None
      case Some(i) =>
        assert s[..i + 1] == [s[0]] + s[1..][..i];
        Some(i + 1)
  }

  /** Cut `s` at the first `c`: what comes before it and what comes after. */
  function CutAt(s: string, c: char): (r: Option<(string, string)>)
    ensures r.Some? ==> s == r.value.0 + [c] + r.value.1 && c !in r.value.0
    ensures r.None? ==> c !in s
  {
    match FirstIndex(s, c)
    case None => None
    case Some(i) =>
      assert s == s[..i] + [c] + s[i + 1..];
      Some((s[..i], s[i + 1..]))
  }

  /** Cutting at the first `c` finds the `c` that follows a `c`-free start. */
  lemma CutAtFirst(a: string, c: char, b: string)
    requires c !in a
    ensures CutAt(a + [c] + b, c) == Some((a, b))
  {
    var s := a + [c] + b;
    assert s[|a|] == c;
    assert s[..|a|] == a && s[|a| + 1..] == b;
  }

  /** The text before a final newline, if there is one. */
  function DropNewline(s: string): (body: string)
    ensures s == body || s == body + "\n"
  {
    if |s| > 0 && s[|s| - 1] == '\n' then s[..|s| - 1] else s
  }

  /** The time of day part `(H:)?M:SS` cut into hours, minutes and seconds. */
  function CutClock(main: string): (r: Option<(Option<string>, string, string)>)
    ensures r.Some? && r.value.0.None? ==> main == r.value.1 + ":" + r.value.2
    ensures r.Some? && r.value.0.Some? ==>
      main == r.value.0.value + ":" + r.value.1 + ":" + r.value.2
  {
    var outer := CutAt(main, ':');
    if outer.None? then None
    else
      var first := outer.value.0;
      var rest := outer.value.1;
      var inner := CutAt(rest, ':');
      if inner.None? then Some((None, first, rest))
      else
        var m := inner.value.0;
        var sec := inner.value.1;
        assert main == first + ":" + (m + ":" + sec);
        Some((Some(first), m, sec))
  }

  /** The whole text cut into the time of day and the optional fraction. */
  function CutFraction(body: string): (r: (string, Option<string>))
    ensures r.1.None? ==> body == r.0
    ensures r.1.Some? ==> body == r.0 + "." + r.1.value
  {
    match CutAt(body, '.')
    case None => (body, None)
    case Some((main, fraction)) => (main, Some(fraction))
  }

  lemma RenderPieces(t: Timestamp, main: string)
    requires t.hours.None? ==> main == t.minutes + ":" + t.seconds
    requires t.hours.Some? ==> main == t.hours.value + ":" + t.minutes + ":" + t.seconds
    ensures t.fraction.None? ==> Render(t) == main
    ensures t.fraction.Some? ==> Render(t) == main + "." + t.fraction.value
  {
  }

  /** Split a candidate timestamp into its pieces: drop one trailing newline
      (Python's `$` also matches just before it), cut the fraction at the
      first `.`, then the hours and minutes at the colons. The pieces must
      then have the shapes the pattern allows. */
  function ParseTimestamp(s: string): (r: Option<Timestamp>)
    ensures r.Some? ==> WellFormed(r.value)
    ensures r.Some? ==> s == Render(r.value) || s == Render(r.value) + "\n"
  {
    var body := DropNewline(s);
    var (main, fraction) := CutFraction(body);
    match CutClock(main)
    case None => None
    case Some((hours, minutes, seconds)) =>
      var t := Timestamp(hours, minutes, seconds, fraction);
      if WellFormed(t) then
        RenderPieces(t, main);
        Some(t)
      else None
  }

  /** `validate_timestamp(s)`: `re.match` of the pattern succeeds. */
  predicate ValidateTimestamp(s: string) {
    ParseTimestamp(s).Some?
  }

  /** The time of day part of a rendering. */
  function ClockText(t: Timestamp): string {
    (if t.hours.Some? then t.hours.value + ":" else "") + t.minutes + ":" + t.seconds
  }

  /** Cutting a rendering at its first `.` separates the time of day from
      the fraction. */
  lemma CutFractionOfRender(t: Timestamp)
    requires WellFormed(t)
    ensures CutFraction(Render(t)) == (ClockText(t), t.fraction)
  {
    var clock := ClockText(t);
    assert '.' !in t.minutes && '.' !in t.seconds;
    assert t.hours.Some? ==> '.' !in t.hours.value;
    assert '.' !in clock;
    RenderPieces(t, clock);
    if t.fraction.Some? {
      CutAtFirst(clock, '.', t.fraction.value);
    }
  }

  /** Cutting the time of day at its colons gives back hours, minutes and
      seconds. */
  lemma CutClockOfRender(t: Timestamp)
    requires WellFormed(t)
    ensures CutClock(ClockText(t)) == Some((t.hours, t.minutes, t.seconds))
  {
    var clock := ClockText(t);
    assert ':' !in t.minutes && ':' !in t.seconds;
    if t.hours.Some? {
      var h := t.hours.value;
      assert ':' !in h;
      var rest := t.minutes + [':'] + t.seconds;
      assert clock == h + [':'] + rest;
      CutAtFirst(h, ':', rest);
      CutAtFirst(t.minutes, ':', t.seconds);
    } else {
      assert clock == t.minutes + [':'] + t.seconds;
      CutAtFirst(t.minutes, ':', t.seconds);
    }
  }

  /** Every well-formed timestamp is parsed back into its pieces, with or
      without one trailing newline. */
  lemma ParseRender(t: Timestamp, newline: bool)
    requires WellFormed(t)
    ensures ParseTimestamp(Render(t) + (if newline then "\n" else "")) == Some(t)
  {
    var text := Render(t);
    assert IsDigit(text[|text| - 1]);
    assert DropNewline(text + (if newline then "\n" else "")) == text;
    CutFractionOfRender(t);
    CutClockOfRender(t);
  }

  /** `validate_timestamp` accepts exactly the renderings of well-formed
      timestamps, each optionally followed by one newline. */
  lemma TimestampLanguage(s: string)
    ensures ValidateTimestamp(s) <==>
      exists t :: WellFormed(t) && (s == Render(t) || s == Render(t) + "\n")
  {
    if t :| WellFormed(t) && (s == Render(t) || s == Render(t) + "\n") {
      if s == Render(t) {
        ParseRender(t, false);
        assert Render(t) + "" == s;
      } else {
        ParseRender(t, true);
      }
    }
  }

  /** Minutes and seconds of an accepted timestamp are at most 59. */
  lemma TimestampFieldsBounded(s: string)
    requires ValidateTimestamp(s)
    ensures WellFormed(ParseTimestamp(s).value)
    ensures DigitsValue(ParseTimestamp(s).value.minutes) <= 59
    ensures DigitsValue(ParseTimestamp(s).value.seconds) <= 59
  {
    FieldsBounded(ParseTimestamp(s).value);
  }

  lemma FieldsBounded(t: Timestamp)
    requires WellFormed(t)
    ensures DigitsValue(t.minutes) <= 59 && DigitsValue(t.seconds) <= 59
  {
    if |t.minutes| == 2 {
      TwoDigitsValue(t.minutes);
    } else {
      assert t.minutes[..0] == [];
    }
    TwoDigitsValue(t.seconds);
  }

  lemma TwoDigitsValue(d: string)
    requires |d| == 2 && AllDigits(d)
    ensures DigitsValue(d) == DigitValue(d[0]) * 10 + DigitValue(d[1])
  {
    var first := d[..1];
    assert first == [d[0]];
    assert first[..0] == [];
    assert DigitsValue(first) == DigitValue(d[0]);
    assert d[..|d| - 1] == first;
  }

  /** `00:01:30` as pieces. */
  function ClockExample(): Timestamp {
    Timestamp(Some("00"), "01", "30", None)
  }

  lemma ClockExampleText()
    ensures WellFormed(ClockExample())
    ensures Render(ClockExample()) == "00:01:30"
    ensures Render(ClockExample()) + "\n" == "00:01:30\n"
  {
  }

  /** A timestamp with hours is accepted. */
  lemma TimestampAcceptsClock()
    ensures ValidateTimestamp("00:01:30")
  {
    ClockExampleText();
    ParseRender(ClockExample(), false);
  }

  /** Python's `$` lets one trailing newline through. */
  lemma TimestampAcceptsNewline()
    ensures ValidateTimestamp("00:01:30\n")
  {
    ClockExampleText();
    ParseRender(ClockExample(), true);
  }

  /** `1:02:03.500` as pieces. */
  function FractionExample(): Timestamp {
    Timestamp(Some("1"), "02", "03", Some("500"))
  }

  lemma FractionExampleText()
    ensures WellFormed(FractionExample())
    ensures Render(FractionExample()) == "1:02:03.500"
  {
    assert Render(FractionExample()) == "1" + ":" + "02" + ":" + "03" + "." + "500";
  }

  /** A timestamp with a one-digit hour and a fraction is accepted. */
  lemma TimestampAcceptsFraction()
    ensures ValidateTimestamp("1:02:03.500")
  {
    FractionExampleText();
    ParseRender(FractionExample(), false);
  }

  /** Out-of-range fields, non-numeric text and the empty string are rejected. */
  lemma TimestampRejected()
    ensures !ValidateTimestamp("99:99")
    ensures !ValidateTimestamp("abc")
    ensures !ValidateTimestamp("")
  {
    RejectsOutOfRange();
    RejectsNoColon("abc");
    RejectsNoColon("");
  }

  lemma RejectsOutOfRange()
    ensures !ValidateTimestamp("99:99")
  {
    assert '.' !in "99:99";
    assert CutFraction("99:99") == ("99:99", None);
    CutAtFirst("99", ':', "99");
    assert "99" + [':'] + "99" == "99:99";
    assert CutAt("99", ':') == None;
    assert CutClock("99:99") == Some((None, "99", "99"));
    assert !MinuteField("99");
  }

  /** Text without a colon has no time of day. */
  lemma RejectsNoColon(s: string)
    requires ':' !in s
    ensures !ValidateTimestamp(s)
  {
    var body := DropNewline(s);
    assert ':' !in body;
    var (main, fraction) := CutFraction(body);
    assert ':' !in main;
  }

  // ---------------------------------------------------------------------
  // sanitize_filename
  // ---------------------------------------------------------------------

  /** `os.path.basename(p)`: what follows the last `/`. */
  function Basename(p: string): (r: string)
    ensures '/' !in r
    ensures |r| <= |p| && r == p[|p| - |r|..]
    ensures |r| < |p| ==> p[|p| - |r| - 1] == '/'
  {
    if p == [] || p[|p| - 1] == '/' then []
    else
      var init := p[..|p| - 1];
      var r := Basename(init);
      assert init[|init| - |r|..] + [p[|p| - 1]] == p[|p| - |r| - 1..];
      r + [p[|p| - 1]]
  }

  /** `s.replace('\0', '')`. */
  function RemoveNul(s: string): (r: string)
    ensures '\0' !in r
    ensures |r| <= |s|
    ensures multiset(r) == multiset(s)['\0' := 0]
  {
    if s == [] then []
    else
      var rest := RemoveNul(s[1..]);
      assert s == [s[0]] + s[1..];
      if s[0] == '\0' then rest else [s[0]] + rest
  }

  /** `replace` keeps the order of what it keeps: removing NULs from a
      concatenation removes them from each side (`RemoveNulCons` says what
      happens to a single character). */
  lemma {:induction false} RemoveNulAppend(a: string, b: string)
    ensures RemoveNul(a + b) == RemoveNul(a) + RemoveNul(b)
  {
    if a == [] {
      assert a + b == b;
    } else {
      var c, tail := a[0], a[1..];
      assert a == [c] + tail;
      RemoveNulAppend(tail, b);
      RemoveNulAppendStep(c, tail, b);
    }
  }

  /** One step of `RemoveNulAppend`: a leading character is kept or dropped
      in front of both sides alike. */
  lemma RemoveNulAppendStep(c: char, tail: string, b: string)
    requires RemoveNul(tail + b) == RemoveNul(tail) + RemoveNul(b)
    ensures RemoveNul([c] + tail + b) == RemoveNul([c] + tail) + RemoveNul(b)
  {
    AppendAssoc([c], tail, b);
    RemoveNulCons(c, tail);
    RemoveNulCons(c, tail + b);
    AppendAssoc(if c == '\0' then [] else [c], RemoveNul(tail), RemoveNul(b));
  }

  /** A leading character is dropped exactly when it is NUL, and the rest
      is cleaned after it. */
  lemma RemoveNulCons(c: char, s: string)
    ensures RemoveNul([c] + s) == (if c == '\0' then [] else [c]) + RemoveNul(s)
  {
    assert ([c] + s)[1..] == s;
  }

  /** `sanitize_filename(name)`. */
  function SanitizeFilename(name: string): (r: string)
    ensures '/' !in r && '\0' !in r
    ensures |r| <= |name|
  {
    var base := Basename(name);
    var r := RemoveNul(base);
    assert forall c :: c in r ==> c in multiset(r);
    r
  }

  lemma {:induction false} BasenameOfPlainName(p: string)
    requires '/' !in p
    ensures Basename(p) == p
  {
    if p != [] {
      assert p[|p| - 1] in p;
      assert '/' !in p[..|p| - 1];
      BasenameOfPlainName(p[..|p| - 1]);
      assert p[..|p| - 1] + [p[|p| - 1]] == p;
    }
  }

  lemma {:induction false} RemoveNulOfClean(s: string)
    requires '\0' !in s
    ensures RemoveNul(s) == s
  {
    if s != [] {
      assert s[0] in s;
      assert '\0' !in s[1..];
      RemoveNulOfClean(s[1..]);
      assert [s[0]] + s[1..] == s;
    }
  }

  /** Sanitising twice is sanitising once. */
  lemma SanitizeIdempotent(name: string)
    ensures SanitizeFilename(SanitizeFilename(name)) == SanitizeFilename(name)
  {
    var r := SanitizeFilename(name);
    BasenameOfPlainName(r);
    RemoveNulOfClean(r);
  }

  /** Traversal prefixes are dropped. */
  lemma SanitizeTraversal()
    ensures SanitizeFilename("../../etc/passwd") == "passwd"
  {
    BasenameAfterSlash("../../etc/", "passwd");
    assert "../../etc/" + "passwd" == "../../etc/passwd";
    RemoveNulOfClean("passwd");
  }

  /** A bare `..` is kept as it is. */
  lemma SanitizeKeepsDotDot()
    ensures SanitizeFilename("..") == ".."
  {
    BasenameOfPlainName("..");
    RemoveNulOfClean("..");
  }

  lemma {:induction false} BasenameAfterSlash(dir: string, name: string)
    requires |dir| > 0 && dir[|dir| - 1] == '/' && '/' !in name
    ensures Basename(dir + name) == name
  {
    if name == [] {
      assert dir + name == dir;
    } else {
      var init := name[..|name| - 1];
      assert name[|name| - 1] in name;
      assert '/' !in init;
      BasenameAfterSlash(dir, init);
      assert (dir + name)[..|dir + name| - 1] == dir + init;
      assert init + [name[|name| - 1]] == name;
    }
  }

  // ---------------------------------------------------------------------
  // validate_video_file
  // ---------------------------------------------------------------------

  const VideoExtensions: set<string> := {".mp4", ".avi", ".mov", ".mkv", ".webm"}

  /** The last position of `c` in `s`. */
  function LastIndex(s: string, c: char): (r: Option<nat>)
    ensures r.Some? ==> r.value < |s| && s[r.value] == c && c !in s[r.value + 1..]
    ensures r.None? ==> c !in s
  {
    if s == [] then None
    else if s[|s| - 1] == c then Some(|s| - 1)
    else
      var r := LastIndex(s[..|s| - 1], c);
      assert r.Some? ==> s[r.value + 1..] == s[..|s| - 1][r.value + 1..] + [s[|s| - 1]];
      assert r.None? ==> s == s[..|s| - 1] + [s[|s| - 1]];
      r
  }

  /** `PurePath.suffix` of a final component: from its last `.` on, provided
      that dot neither starts nor ends the name. */
  function Suffix(name: string): (r: string)
    ensures r == [] || (2 <= |r| < |name| && r == name[|name| - |r|..] && r[0] == '.' && '.' !in r[1..])
  {
    match LastIndex(name, '.')
    case Some(i) => if 0 < i < |name| - 1 then name[i..] else []
    case None => []
  }

  /** `name` ends with `ext`, compared in lower case, and has something before it. */
  predicate EndsWithIgnoringCase(name: string, ext: string) {
    |ext| < |name| && ToLowerAscii(name[|name| - |ext|..]) == ext
  }

  /** The last `c` is the one with no `c` after it. */
  lemma LastIndexAt(s: string, c: char, k: nat)
    requires k < |s| && s[k] == c && c !in s[k + 1..]
    ensures LastIndex(s, c) == Some(k)
  {
    assert s[k] in s;
  }

  /** A dot that is neither first nor last, with no dot after it, starts the suffix. */
  lemma SuffixAtDot(name: string, k: nat)
    requires 0 < k < |name| - 1 && name[k] == '.' && '.' !in name[k + 1..]
    ensures Suffix(name) == name[k..]
  {
    LastIndexAt(name, '.', k);
  }

  /** Every allowed extension is a dot followed by dot-free text. */
  lemma ExtensionShape(ext: string)
    requires ext in VideoExtensions
    ensures |ext| >= 2 && ext[0] == '.' && '.' !in ext[1..]
  {
  }

  /** Lower-casing leaves dots where they are and makes no new ones. */
  lemma LowerCharDot(c: char)
    ensures LowerChar(c) == '.' <==> c == '.'
  {
  }

  /** A name ending in an allowed extension has exactly that text, in its
      own case, as its suffix. */
  lemma SuffixOfAllowedEnding(name: string, ext: string)
    requires ext in VideoExtensions && EndsWithIgnoringCase(name, ext)
    ensures ToLowerAscii(Suffix(name)) == ext
  {
    ExtensionShape(ext);
    var k := |name| - |ext|;
    var tail := name[k..];
    assert ToLowerAscii(tail) == ext;
    LowerCharDot(tail[0]);
    assert name[k] == '.';
    forall j | k + 1 <= j < |name|
      ensures name[j] != '.'
    {
      assert name[j] == tail[j - k];
      assert ext[j - k] == ext[1..][j - k - 1];
      LowerCharDot(tail[j - k]);
    }
    assert '.' !in name[k + 1..];
    SuffixAtDot(name, k);
  }

  /** The suffix test of `validate_video_file`, stated without `Suffix`: the
      name ends, ignoring case, with one of the allowed extensions and has at
      least one character in front of it. */
  lemma SuffixAllowedIff(name: string)
    ensures ToLowerAscii(Suffix(name)) in VideoExtensions <==>
      exists ext :: ext in VideoExtensions && EndsWithIgnoringCase(name, ext)
  {
    if ext :| ext in VideoExtensions && EndsWithIgnoringCase(name, ext) {
      SuffixOfAllowedEnding(name, ext);
    }
    if ToLowerAscii(Suffix(name)) in VideoExtensions {
      SuffixAllowedEnds(name);
    }
  }

  /** An allowed suffix is itself an allowed ending of the name. */
  lemma SuffixAllowedEnds(name: string)
    requires ToLowerAscii(Suffix(name)) in VideoExtensions
    ensures EndsWithIgnoringCase(name, ToLowerAscii(Suffix(name)))
  {
    var suffix := Suffix(name);
    assert ToLowerAscii(suffix) != [];
    assert name[|name| - |suffix|..] == suffix;
  }

  /** A name that is only a dot and an extension is a hidden file without
      suffix, so `.mp4` is not a video file. */
  lemma DotfileHasNoSuffix()
    ensures Suffix(".mp4") == []
    ensures Suffix("clip.MP4") == ".MP4"
  {
    assert ".mp4"[1..] == "mp4";
    assert '.' !in "mp4";
    assert LastIndex(".mp4", '.') == Some(0);
    assert "clip.MP4"[5..] == "MP4";
    assert "clip.MP4"[4] == '.';
    assert '.' !in "MP4";
    assert LastIndex("clip.MP4", '.') == Some(4);
  }

  /** `validate_video_file(path)`; `present` answers `Path.exists()`. Every
      failure is re-raised as `InvalidInputError("Invalid video file: ...")`
      and success returns the path unresolved. */
  function ValidateVideoFile(path: string, present: PurePath -> bool): (r: Result<PurePath>)
    ensures r.Ok? <==>
      present(ParsePath(path)) &&
      exists ext :: ext in VideoExtensions && EndsWithIgnoringCase(Name(ParsePath(path)), ext)
    ensures r.Ok? ==> r.value == ParsePath(path)
    ensures r.Err? ==> r.error.cls == InvalidInputError
    ensures r.Err? && !present(ParsePath(path)) ==>
      r.error.message == "Invalid video file: File does not exist"
    ensures r.Err? && present(ParsePath(path)) ==>
      r.error.message == "Invalid video file: Unsupported file format"
  {
    var p := ParsePath(path);
    SuffixAllowedIff(Name(p));
    if !present(p) then Err(Error(InvalidInputError, "Invalid video file: File does not exist"))
    else if ToLowerAscii(Suffix(Name(p))) !in VideoExtensions then
      Err(Error(InvalidInputError, "Invalid video file: Unsupported file format"))
    else Ok(p)
  }
}
