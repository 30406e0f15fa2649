/** The payload locator of `scripts/payload_exists.py`: given a logical
    `name`, the entries of the output directory, the current Unix time and
    the MD5 digest of the glob pattern, decide which identifier to report
    for the payload archive `<name>_<identifier>_payload.zip`.

    `name` is treated as literal text in both the glob pattern and the
    regular expression, which is what the script does when neither `name`
    nor the output path holds a glob or regex metacharacter. A `/` in
    `name` is modelled: the glob then lists a sub-directory and matches
    only the last component of `name`, while the regex still expects the
    whole of `name`. */
module PayloadExists {
  import opened Decimal

  datatype Option<T> = None | Some(value: T)

  /** What one run of the script ends with. */
  datatype Outcome =
    | Generated(n: int)         // no payload yet: a fresh identifier is printed, exit 0
    | Existing(digits: string)  // one payload: its identifier is printed, exit 0
    | Ambiguous                 // "More than one payload file exists for <name>", exit 1
    | MissingIdentifier         // "Couldn't find identifier in existing file", exit 1
    | ExtractFailed             // the regex did not match: `None.groups()` raises

  /** The fixed end of the glob pattern `<name>_*_payload.zip`. */
  const Suffix: string := "_payload.zip"

  /** The literal text the regex expects right after the digits. */
  const Marker: string := "_payload"

  /** The hash offset is taken modulo `10 ** 10`. */
  const Modulus: nat := 10_000_000_000

  // ---------------------------------------------------------------------
  // The glob `<output_path>/<name>_*_payload.zip`, on basenames

  /** The last component of `path`: what follows its last `/`, or all of
      `path` when it has none (the tail of `os.path.split`). The glob lists
      the directory before that `/` and matches only this component. */
  function LastComponent(path: string): (t: string)
    ensures '/' !in t
    ensures '/' !in path ==> t == path
  {
    if path == [] || path[|path| - 1] == '/' then []
    else LastComponent(path[..|path| - 1]) + [path[|path| - 1]]
  }

  /** The last component is the longest `/`-free suffix: it ends `path`,
      and either it is all of `path` or a `/` stands right before it. */
  lemma {:induction false} LastComponentIsSuffix(path: string)
    ensures |LastComponent(path)| <= |path|
    ensures LastComponent(path) == path[|path| - |LastComponent(path)|..]
    ensures |LastComponent(path)| < |path| ==> path[|path| - |LastComponent(path)| - 1] == '/'
  {
    if path != [] && path[|path| - 1] != '/' {
      var init := path[..|path| - 1];
      LastComponentIsSuffix(init);
      var t := LastComponent(init);
      var c := path[|path| - 1];
      assert LastComponent(path) == t + [c];
      assert path == init + [c];
      assert path[|path| - |t| - 1..] == init[|init| - |t|..] + [c] == t + [c];
      if |t| < |init| {
        assert path[|path| - |t| - 2] == init[|init| - |t| - 1] == '/';
      }
    }
  }

  /** `b` is `name + "_" + s + "_payload.zip"` for some (possibly empty) `s`:
      the `*` of the pattern matches any text, `_` included. */
  predicate GlobMatch(name: string, b: string) {
    && |b| >= |name| + 1 + |Suffix|
    && b[..|name| + 1] == name + "_"
    && b[|b| - |Suffix|..] == Suffix
  }

  /** The text the `*` matched. */
  function Middle(name: string, b: string): string
    requires GlobMatch(name, b)
  {
    b[|name| + 1..|b| - |Suffix|]
  }

  /** Every name of the pattern's shape is matched. */
  lemma GlobMatchOf(name: string, s: string)
    ensures GlobMatch(name, name + "_" + s + Suffix)
    ensures Middle(name, name + "_" + s + Suffix) == s
  {
  }

  /** Only names of the pattern's shape are matched. */
  lemma GlobMatchSplit(name: string, b: string)
    requires GlobMatch(name, b)
    ensures b == name + "_" + Middle(name, b) + Suffix
  {
  }

  /** The entries the glob returns, in listing order. Each entry keeps its
      multiplicity when it matches and is dropped when it does not. */
  function Matches(name: string, basenames: seq<string>): (files: seq<string>)
    ensures forall b :: multiset(files)[b] == if GlobMatch(name, b) then multiset(basenames)[b] else 0
  {
    if basenames == [] then []
    else
      var rest := Matches(name, basenames[1..]);
      assert basenames == [basenames[0]] + basenames[1..];
      if GlobMatch(name, basenames[0]) then [basenames[0]] + rest else rest
  }

  /** Two matching entries at different positions give at least two files. */
  lemma {:induction false} TwoMatches(name: string, basenames: seq<string>, i: nat, j: nat)
    requires i < j < |basenames|
    requires GlobMatch(name, basenames[i]) && GlobMatch(name, basenames[j])
    ensures |Matches(name, basenames)| >= 2
  {
    var rest := basenames[1..];
    if i > 0 {
      TwoMatches(name, rest, i - 1, j - 1);
    } else {
      assert rest[j - 1] == basenames[j];
      assert multiset(rest)[basenames[j]] > 0;
      assert multiset(Matches(name, rest))[basenames[j]] > 0;
    }
  }

  /** When the glob returns a single file and `f` is a matching entry,
      that file is `f`. */
  lemma OnlyMatch(name: string, basenames: seq<string>, f: string)
    requires f in basenames && GlobMatch(name, f)
    requires |Matches(name, basenames)| == 1
    ensures Matches(name, basenames) == [f]
  {
  }

  // ---------------------------------------------------------------------
  // The regex `<name>_([0-9]+)_payload.zip`, applied with `re.match`

  /** The longest prefix of `s` made of ASCII digits. */
  function DigitRun(s: string): (d: string)
    ensures d <= s && AllDigits(d)
    ensures |d| < |s| ==> !IsDigit(s[|d|])
  {
    if s != [] && IsDigit(s[0]) then [s[0]] + DigitRun(s[1..]) else []
  }

  /** A digit prefix followed by a non-digit (or by nothing) is the run. */
  lemma {:induction false} DigitRunOf(d: string, t: string)
    requires AllDigits(d)
    requires t == [] || !IsDigit(t[0])
    ensures DigitRun(d + t) == d
  {
    if d != [] {
      assert (d + t)[1..] == d[1..] + t;
      DigitRunOf(d[1..], t);
      assert [d[0]] + d[1..] == d;
    }
  }

  /** The regex matches `b` at its start with `d` as its group: `name`, `_`,
      the non-empty digits `d`, `_payload`, one character other than a
      newline (the unescaped `.`), then `zip`; anything may follow. */
  predicate Accepts(name: string, d: string, b: string) {
    var k := |name| + 1 + |d| + |Marker|;
    && d != [] && AllDigits(d)
    && |b| >= k + 4
    && b[..k] == name + "_" + d + Marker
    && b[k] != '\n'
    && b[k + 1..k + 4] == "zip"
  }

  /** `r.match(b)` followed by `.groups()[0]`; `None` when the regex fails.
      `[0-9]+` is greedy and `_` is no digit, so backtracking cannot help:
      the group is the longest digit run after `name_`. */
  function Extract(name: string, b: string): (r: Option<string>)
    ensures r.Some? ==> Accepts(name, r.value, b)
  {
    var p := name + "_";
    if !(p <= b) then None
    else
      var d := DigitRun(b[|p|..]);
      var j := |p| + |d|;
      var k := j + |Marker|;
      if d != [] && |b| >= k + 4 && b[j..k] == Marker && b[k] != '\n' && b[k + 1..k + 4] == "zip" then
        ExtractSound(name, b, d);
        Some(d)
      else None
  }

  /** What the matcher checks amounts to the regex accepting `d`. */
  lemma ExtractSound(name: string, b: string, d: string)
    requires name + "_" <= b && d == DigitRun(b[|name| + 1..]) && d != []
    requires |b| >= |name| + 1 + |d| + |Marker| + 4
    requires b[|name| + 1 + |d|..|name| + 1 + |d| + |Marker|] == Marker
    requires b[|name| + 1 + |d| + |Marker|] != '\n'
    requires b[|name| + 1 + |d| + |Marker| + 1..|name| + 1 + |d| + |Marker| + 4] == "zip"
    ensures Accepts(name, d, b)
  {
    var p := name + "_";
    var j := |p| + |d|;
    var k := j + |Marker|;
    assert b[|p|..j] == b[|p|..][..|d|] == d;
    assert b[..k] == b[..|p|] + b[|p|..j] + b[j..k];
  }

  /** Every identifier the regex accepts is the one the matcher returns. */
  lemma ExtractComplete(name: string, b: string, d: string)
    requires Accepts(name, d, b)
    ensures Extract(name, b) == Some(d)
  {
    var p := name + "_";
    var j := |p| + |d|;
    var k := j + |Marker|;
    var head := b[..k];
    assert head == p + d + Marker;
    assert b[..|p|] == head[..|p|] == p;
    assert b[|p|..j] == head[|p|..j] == d;
    assert b[|p|..] == b[|p|..j] + b[j..];
    assert b[j] == head[j] == '_';
    DigitRunOf(d, b[j..]);
    assert b[j..k] == head[j..] == Marker;
  }

  /** The group is determined by the name: the regex yields exactly the
      identifiers it accepts. */
  lemma ExtractCharacterised(name: string, b: string, d: string)
    ensures Extract(name, b) == Some(d) <==> Accepts(name, d, b)
  {
    if Accepts(name, d, b) {
      ExtractComplete(name, b, d);
    }
  }

  // ---------------------------------------------------------------------
  // The script

  /** One run of the script at Unix time `now`, with `h` the MD5 digest of
      the glob pattern read as a number. `basenames` are the entries of the
      directory the glob lists: `<output_path>` itself, or
      `<output_path>/<dir>` when `name` is `<dir>/<last>`. */
  function Decide(name: string, basenames: seq<string>, now: int, h: nat): (r: Outcome)
    ensures r.Generated? ==> now <= r.n < now + Modulus
    ensures r.Existing? ==> r.digits != [] && AllDigits(r.digits)
    ensures !r.MissingIdentifier?
  {
    var files := Matches(LastComponent(name), basenames);
    if files == [] then Generated(now + h % Modulus)
    else if |files| > 1 then Ambiguous
    else
      match Extract(name, files[0])
      case None => ExtractFailed
      case Some(identifier) => if identifier == [] then MissingIdentifier else Existing(identifier)
  }

  /** The identifier written to standard output, on the two success paths. */
  function Response(o: Outcome): (id: Option<string>)
    ensures id.Some? <==> o.Generated? || o.Existing?
    ensures o.Generated? && o.n >= 0 ==> id.Some? && id.value != [] && AllDigits(id.value)
  {
    match o
    case Generated(n) => Some(Str(n))
    case Existing(digits) => Some(digits)
    case _ => None
  }

  // ---------------------------------------------------------------------
  // Properties of a run

  /** No matching entry: a fresh identifier is minted from the clock and the
      hash, and it lies in `[now, now + 10 ** 10)`. */
  lemma GeneratedWhenNoMatch(name: string, basenames: seq<string>, now: int, h: nat)
    requires forall b :: b in basenames ==> !GlobMatch(LastComponent(name), b)
    ensures Decide(name, basenames, now, h) == Generated(now + h % Modulus)
    ensures now <= Decide(name, basenames, now, h).n < now + Modulus
  {
  }

  /** An identifier is minted exactly when the glob returns nothing. */
  lemma GeneratedIff(name: string, basenames: seq<string>, now: int, h: nat)
    ensures Decide(name, basenames, now, h).Generated? <==> Matches(LastComponent(name), basenames) == []
  {
  }

  /** At the same second, patterns whose hashes differ modulo `10 ** 10`
      get different identifiers (the clash avoidance the hash is for). */
  lemma GeneratedOffsetsDistinct(name: string, basenames: seq<string>, now: int, h1: nat, h2: nat)
    requires Matches(LastComponent(name), basenames) == []
    requires h1 % Modulus != h2 % Modulus
    ensures Decide(name, basenames, now, h1) != Decide(name, basenames, now, h2)
    ensures Response(Decide(name, basenames, now, h1)) != Response(Decide(name, basenames, now, h2))
  {
    var n1, n2 := now + h1 % Modulus, now + h2 % Modulus;
    assert Decide(name, basenames, now, h1) == Generated(n1);
    assert Decide(name, basenames, now, h2) == Generated(n2);
    StrInjective(n1, n2);
  }

  /** For the same pattern, runs at different seconds get different identifiers. */
  lemma GeneratedSecondsDistinct(name: string, basenames: seq<string>, now1: int, now2: int, h: nat)
    requires Matches(LastComponent(name), basenames) == []
    requires now1 != now2
    ensures Response(Decide(name, basenames, now1, h)) != Response(Decide(name, basenames, now2, h))
  {
    var n1, n2 := now1 + h % Modulus, now2 + h % Modulus;
    assert Decide(name, basenames, now1, h) == Generated(n1);
    assert Decide(name, basenames, now2, h) == Generated(n2);
    StrInjective(n1, n2);
  }

  /** Two matching entries always end in the ambiguity error, whatever the
      entries contain: no extraction is attempted. */
  lemma AmbiguousWhenTwoMatch(name: string, basenames: seq<string>, now: int, h: nat, i: nat, j: nat)
    requires i < j < |basenames|
    requires GlobMatch(LastComponent(name), basenames[i]) && GlobMatch(LastComponent(name), basenames[j])
    ensures Decide(name, basenames, now, h) == Ambiguous
  {
    TwoMatches(LastComponent(name), basenames, i, j);
  }

  /** The ambiguity error is reported exactly when the glob returns two or more files. */
  lemma AmbiguousIff(name: string, basenames: seq<string>, now: int, h: nat)
    ensures Decide(name, basenames, now, h) == Ambiguous <==> |Matches(LastComponent(name), basenames)| >= 2
  {
  }

  /** An identifier is reported for an existing payload exactly when the
      glob returns one file and the regex accepts it with that identifier
      as its group. */
  lemma ExistingIff(name: string, basenames: seq<string>, now: int, h: nat, d: string)
    ensures Decide(name, basenames, now, h) == Existing(d) <==>
      |Matches(LastComponent(name), basenames)| == 1 && Accepts(name, d, Matches(LastComponent(name), basenames)[0])
  {
    var files := Matches(LastComponent(name), basenames);
    if |files| == 1 {
      ExtractCharacterised(name, files[0], d);
    }
  }

  /** The only match is the file that holds `d`, so `d` is reported as is. */
  lemma {:induction false} ExistingRoundTrip(name: string, d: string, basenames: seq<string>, now: int, h: nat)
    requires '/' !in name
    requires d != [] && AllDigits(d)
    requires name + "_" + d + Suffix in basenames
    requires |Matches(name, basenames)| == 1
    ensures Decide(name, basenames, now, h) == Existing(d)
  {
    assert LastComponent(name) == name;
    var f := name + "_" + d + Suffix;
    GlobMatchOf(name, d);
    OnlyMatch(name, basenames, f);
    var head := name + "_" + d + Marker;
    assert Suffix == Marker + ".zip";
    assert f == head + ".zip";
    assert f[..|head|] == head;
    assert f[|head|..|head| + 4] == ".zip";
    assert Accepts(name, d, f);
    ExtractComplete(name, f, d);
  }

  /** Whenever a run succeeds with a non-negative identifier, a later run
      that finds the archive named after it (and nothing else matching)
      reports the same identifier. */
  lemma NextRunRecovers(name: string, before: seq<string>, after: seq<string>, now: int, now': int, h: nat, h': nat, id: string)
    requires '/' !in name
    requires Response(Decide(name, before, now, h)) == Some(id)
    requires Decide(name, before, now, h).Generated? ==> Decide(name, before, now, h).n >= 0
    requires name + "_" + id + Suffix in after
    requires |Matches(name, after)| == 1
    ensures Response(Decide(name, after, now', h')) == Some(id)
  {
    ExistingRoundTrip(name, id, after, now', h');
  }

  /** A regex-valid name that ends like the glob pattern is also matched by
      the glob, so it counts towards the number of payload files. */
  lemma RegexValidIsGlobMatch(name: string, b: string)
    requires '/' !in name
    requires Extract(name, b).Some?
    requires |b| >= |Suffix| && b[|b| - |Suffix|..] == Suffix
    ensures GlobMatch(LastComponent(name), b)
  {
  }

  // ---------------------------------------------------------------------
  // A `/` in the name

  /** The regex needs the whole of `name`, `/` included, at the start of the
      entry, and a directory entry never holds a `/`. */
  lemma SlashNameNeverExtracts(name: string, b: string, i: nat)
    requires i < |name| && name[i] == '/'
    requires '/' !in b
    ensures Extract(name, b) == None
  {
    var p := name + "_";
    assert p[i] == '/';
    if |p| <= |b| {
      assert b[i] in b;
      assert b[..|p|] != p by { assert b[..|p|][i] == b[i] != '/'; }
    }
  }

  /** With a `/` in `name`, a single match in the sub-directory, even one
      named exactly `<last>_<digits>_payload.zip`, makes the script crash. */
  lemma SlashNameCrashes(name: string, basenames: seq<string>, now: int, h: nat, i: nat)
    requires i < |name| && name[i] == '/'
    requires forall b :: b in basenames ==> '/' !in b
    requires |Matches(LastComponent(name), basenames)| == 1
    ensures Decide(name, basenames, now, h) == ExtractFailed
  {
    var files := Matches(LastComponent(name), basenames);
    assert multiset(files)[files[0]] > 0;
    SlashNameNeverExtracts(name, files[0], i);
  }

  // ---------------------------------------------------------------------
  // Names the glob accepts and the regex rejects

  /** The only match has an empty middle (`<last>__payload.zip`, with `<last>`
      the last component of `name`): the script crashes. */
  lemma EmptyMiddleCrashes(name: string, basenames: seq<string>, now: int, h: nat)
    requires LastComponent(name) + "__payload.zip" in basenames
    requires |Matches(LastComponent(name), basenames)| == 1
    ensures Decide(name, basenames, now, h) == ExtractFailed
  {
    var stem := LastComponent(name);
    var f := stem + "__payload.zip";
    GlobMatchOf(stem, "");
    assert stem + "_" + "" + Suffix == f;
    OnlyMatch(stem, basenames, f);
    EmptyLastComponentRejected(name);
  }

  /** The regex rejects `<last>__payload.zip` for every `name`: with no `/`
      in `name` no digit follows `<name>_`, and with one the entry lacks it. */
  lemma EmptyLastComponentRejected(name: string)
    ensures Extract(name, LastComponent(name) + "__payload.zip") == None
  {
    var f := LastComponent(name) + "__payload.zip";
    if '/' in name {
      var i :| 0 <= i < |name| && name[i] == '/';
      assert '/' !in f;
      SlashNameNeverExtracts(name, f, i);
    } else {
      EmptyMiddleRejected(name);
    }
  }

  /** The empty middle is rejected: no digit follows `<name>_`. */
  lemma EmptyMiddleRejected(name: string)
    ensures Extract(name, name + "__payload.zip") == None
  {
  }

  /** Rejected middles: those that start with a non-digit, and those whose
      leading digits are followed by a non-digit other than `_`. */
  lemma NonDigitMiddleRejected(name: string, d: string, c: char, t: string)
    requires AllDigits(d) && !IsDigit(c) && (d == [] || c != '_')
    ensures Extract(name, name + "_" + (d + [c] + t) + Suffix) == None
  {
    var b := name + "_" + (d + [c] + t) + Suffix;
    var p := name + "_";
    assert p <= b;
    assert b[|p|..] == d + ([c] + t + Suffix);
    DigitRunOf(d, [c] + t + Suffix);
    var j := |p| + |d|;
    if d != [] && |b| >= j + |Marker| {
      assert b[j..j + |Marker|][0] == b[j] == c != Marker[0];
    }
  }

  /** A middle of digits, `_`, then text other than `payload...` is rejected
      (for instance `<name>_1_2_payload.zip`). */
  lemma UnderscoreMiddleRejected(name: string, d: string, t: string)
    requires d != [] && AllDigits(d)
    requires |t| >= 7 ==> t[..7] != "payload"
    ensures Extract(name, name + "_" + (d + "_" + t) + Suffix) == None
  {
    var b := name + "_" + (d + "_" + t) + Suffix;
    var p := name + "_";
    var u := t + Suffix;
    assert b[|p|..] == d + ("_" + u);
    DigitRunOf(d, "_" + u);
    var j := |p| + |d|;
    assert b[j..j + |Marker|] == "_" + u[..7];
    if |t| < 7 {
      assert b[j..j + |Marker|][|t| + 1] == u[|t|] == '_' != Marker[|t| + 1];
    } else {
      assert b[j..j + |Marker|][1..] == u[..7] == t[..7] != Marker[1..];
    }
  }

  /** The regex is anchored only at the start, so a name that merely begins
      with `<name>_<digits>_payload.zip` is accepted, even though the glob
      sees `<digits>_payload.zip` as its middle. */
  lemma TrailingSuffixAccepted(name: string, d: string)
    requires d != [] && AllDigits(d)
    ensures Extract(name, name + "_" + (d + Suffix) + Suffix) == Some(d)
  {
    var b := name + "_" + (d + Suffix) + Suffix;
    var head := name + "_" + d + Marker;
    assert b == head + ".zip" + Suffix;
    var k := |head|;
    assert b[..k] == head;
    assert b[k..k + 4] == ".zip";
    assert Accepts(name, d, b);
    ExtractCharacterised(name, b, d);
  }

  /** The payload of a longer name `<name>_<x>` is matched by `name`'s glob,
      so it can make `name` ambiguous. */
  lemma LongerNameMakesAmbiguous(name: string, x: string, s: string, d: string,
                                 basenames: seq<string>, now: int, h: nat, i: nat, j: nat)
    requires i < |basenames| && j < |basenames| && i != j
    requires basenames[i] == LastComponent(name) + "_" + d + Suffix
    requires basenames[j] == (LastComponent(name) + "_" + x) + "_" + s + Suffix
    ensures Decide(name, basenames, now, h) == Ambiguous
  {
    var stem := LastComponent(name);
    GlobMatchOf(stem, d);
    assert basenames[j] == stem + "_" + (x + "_" + s) + Suffix;
    GlobMatchOf(stem, x + "_" + s);
    if i < j {
      TwoMatches(stem, basenames, i, j);
    } else {
      TwoMatches(stem, basenames, j, i);
    }
  }

  // ---------------------------------------------------------------------
  // The intended handling of a malformed payload name

  /** The script as its error message says it should behave: a single match
      the regex rejects is reported as a missing identifier rather than
      raising on `None.groups()`. */
  function DecideIntended(name: string, basenames: seq<string>, now: int, h: nat): (r: Outcome)
    ensures !r.ExtractFailed?
    ensures r.MissingIdentifier? <==>
      |Matches(LastComponent(name), basenames)| == 1 && Extract(name, Matches(LastComponent(name), basenames)[0]).None?
  {
    var files := Matches(LastComponent(name), basenames);
    if files == [] then Generated(now + h % Modulus)
    else if |files| > 1 then Ambiguous
    else
      match Extract(name, files[0])
      case None => MissingIdentifier
      case Some(identifier) => if identifier == [] then MissingIdentifier else Existing(identifier)
  }

  /** The intended behaviour differs from the script only where the script crashes. */
  lemma IntendedAgreesWhereNoCrash(name: string, basenames: seq<string>, now: int, h: nat)
    ensures Decide(name, basenames, now, h) == ExtractFailed <==> DecideIntended(name, basenames, now, h) == MissingIdentifier
    ensures Decide(name, basenames, now, h) != ExtractFailed ==> DecideIntended(name, basenames, now, h) == Decide(name, basenames, now, h)
  {
  }

  /** With the fix, the empty-middle payload ends in the defined error. */
  lemma EmptyMiddleReportedWhenIntended(name: string, basenames: seq<string>, now: int, h: nat)
    requires LastComponent(name) + "__payload.zip" in basenames
    requires |Matches(LastComponent(name), basenames)| == 1
    ensures DecideIntended(name, basenames, now, h) == MissingIdentifier
  {
    EmptyMiddleCrashes(name, basenames, now, h);
    IntendedAgreesWhereNoCrash(name, basenames, now, h);
  }
}
