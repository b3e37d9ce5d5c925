/** The settings of a run (`SETTINGS` and `update_settings`): the built-in
    defaults, the text of `settings.cfg` and how each key is found in it with
    `re.search('<key> = (?P<v>...)[\n$]', contents)`, the file written when
    none exists, and the in-place update of the settings key by key. */
module Config {
  import opened Wrappers
  import opened Text

  datatype Settings = Settings(
    subreddit: string,
    qualityEnforced: bool,
    resolutionEnforced: bool,
    setAsWallpaper: bool,
    minResX: nat,
    minResY: nat,
    destination: string)

  /** The defaults; `scriptDir` is the directory of the program file. */
  function Defaults(scriptDir: string): Settings
  {
    Settings("earthporn", true, true, true, 1024, 768, JoinPath(scriptDir, "pictures"))
  }

  // ---------------------------------------------------------------------
  // The value part of a settings pattern.

  /** `(?P<v>.*)` for text keys and `(?P<v>[0-9]*)` for the two minimum
      resolutions. */
  datatype ValuePattern = AnyText | DigitsOnly

  predicate Allowed(pat: ValuePattern, ch: char)
  {
    match pat
    case AnyText => ch != '\n'
    case DigitsOnly => IsDigit(ch)
  }

  /** The class `[\n$]` that must follow the value. */
  predicate IsTerminator(ch: char) { ch == '\n' || ch == '$' }

  /** `c[start..n]` can be the value: all its characters are allowed and a
      terminator follows it. */
  ghost predicate ValueEndsAt(c: string, start: nat, pat: ValuePattern, n: nat)
  {
    start <= n < |c| && IsTerminator(c[n]) && forall m :: start <= m < n ==> Allowed(pat, c[m])
  }

  function AllowedRunEnd(c: string, pat: ValuePattern, i: nat): (j: nat)
    requires i <= |c|
    ensures i <= j <= |c|
    decreases |c| - i
  {
    if i < |c| && Allowed(pat, c[i]) then AllowedRunEnd(c, pat, i + 1) else i
  }

  lemma {:induction false} AllowedRunIsMaximal(c: string, pat: ValuePattern, i: nat)
    requires i <= |c|
    ensures var j := AllowedRunEnd(c, pat, i);
            && (forall m :: i <= m < j ==> Allowed(pat, c[m]))
            && (j < |c| ==> !Allowed(pat, c[j]))
    decreases |c| - i
  {
    if i < |c| && Allowed(pat, c[i]) {
      AllowedRunIsMaximal(c, pat, i + 1);
    }
  }

  /** The largest `m` in `lo..n` with a terminator at `c[m]`. */
  function LastTerminator(c: string, lo: nat, n: int): (r: Option<nat>)
    requires n < |c|
    ensures r.Some? ==> lo <= r.value <= n
    decreases n + 1 - lo
  {
    if n < lo then None
    else if IsTerminator(c[n]) then Some(n)
    else LastTerminator(c, lo, n - 1)
  }

  lemma {:induction false} LastTerminatorIsLast(c: string, lo: nat, n: int)
    requires n < |c|
    ensures var r := LastTerminator(c, lo, n);
            && (r.None? <==> forall m :: lo <= m <= n ==> !IsTerminator(c[m]))
            && (r.Some? ==> IsTerminator(c[r.value]) && forall m :: r.value < m <= n ==> !IsTerminator(c[m]))
    decreases n + 1 - lo
  {
    if n >= lo && !IsTerminator(c[n]) {
      LastTerminatorIsLast(c, lo, n - 1);
    }
  }

  /** The value matched from `start` on: the greedy quantifier takes the run
      of allowed characters and backs off until a terminator follows. */
  function ValueFrom(c: string, start: nat, pat: ValuePattern): Option<string>
    requires start <= |c|
  {
    var run := AllowedRunEnd(c, pat, start);
    match LastTerminator(c, start, if run < |c| then run else run - 1)
    case Some(n) => Some(c[start..n])
    case None => None
  }

  /** The captured value is the longest run of allowed characters that a
      terminator follows, and there is none exactly when no run qualifies. */
  lemma ValueFromIsLongest(c: string, start: nat, pat: ValuePattern)
    requires start <= |c|
    ensures ValueFrom(c, start, pat).None? <==> forall n :: start <= n < |c| ==> !ValueEndsAt(c, start, pat, n)
    ensures ValueFrom(c, start, pat).Some? ==>
              var v := ValueFrom(c, start, pat).value;
              && start + |v| < |c| && v == c[start..start + |v|] && ValueEndsAt(c, start, pat, start + |v|)
              && forall n :: start + |v| < n < |c| ==> !ValueEndsAt(c, start, pat, n)
  {
    var run := AllowedRunEnd(c, pat, start);
    var hi := if run < |c| then run else run - 1;
    ValueEndsWithinRun(c, start, pat, run, hi);
    LastTerminatorIsLast(c, start, hi);
  }

  lemma ValueEndsWithinRun(c: string, start: nat, pat: ValuePattern, run: nat, hi: int)
    requires start <= |c|
    requires run == AllowedRunEnd(c, pat, start)
    requires hi == if run < |c| then run else run - 1
    ensures forall n :: start <= n < |c| ==> (ValueEndsAt(c, start, pat, n) <==> n <= hi && IsTerminator(c[n]))
  {
    AllowedRunIsMaximal(c, pat, start);
    forall n | start <= n < |c|
      ensures ValueEndsAt(c, start, pat, n) <==> n <= hi && IsTerminator(c[n])
    {
      if n > hi {
        assert run < n && !Allowed(pat, c[run]);
      }
    }
  }

  // ---------------------------------------------------------------------
  // Searching the settings text for a key.

  function Prefix(key: string): string { key + " = " }

  /** The literal text `rest` of a pattern matched character by character
      from `i` on, then the value. */
  function MatchText(c: string, rest: string, pat: ValuePattern, i: nat): Option<string>
    requires i <= |c|
    decreases |rest|
  {
    if rest == [] then ValueFrom(c, i, pat)
    else if i < |c| && c[i] == rest[0] then MatchText(c, rest[1..], pat, i + 1)
    else None
  }

  /** The match of the key's pattern that starts at `p`, if any. */
  function KeyValueAt(c: string, key: string, pat: ValuePattern, p: nat): Option<string>
    requires p <= |c|
  {
    MatchText(c, Prefix(key), pat, p)
  }

  lemma {:induction false} MatchTextIsSlice(c: string, rest: string, pat: ValuePattern, i: nat)
    requires i <= |c|
    ensures MatchText(c, rest, pat, i)
            == if i + |rest| <= |c| && c[i..i + |rest|] == rest then ValueFrom(c, i + |rest|, pat) else None
    decreases |rest|
  {
    if rest != [] {
      if i < |c| && c[i] == rest[0] {
        MatchTextIsSlice(c, rest[1..], pat, i + 1);
        if i + |rest| <= |c| {
          assert c[i..i + |rest|] == [c[i]] + c[i + 1..i + |rest|];
          assert rest == [rest[0]] + rest[1..];
        }
      } else if i + |rest| <= |c| {
        assert c[i..i + |rest|][0] == c[i];
      }
    }
  }

  /** The key's pattern matches at `p` exactly when `key = ` is written
      there, and then captures the value that follows. */
  lemma KeyValueAtIs(c: string, key: string, pat: ValuePattern, p: nat)
    requires p <= |c|
    ensures var start := p + |key| + 3;
            KeyValueAt(c, key, pat, p)
            == if start <= |c| && c[p..start] == Prefix(key) then ValueFrom(c, start, pat) else None
  {
    MatchTextIsSlice(c, Prefix(key), pat, p);
  }

  /** `re.search` from `from` on: the position of the leftmost match. */
  function MatchFrom(c: string, key: string, pat: ValuePattern, from: nat): (r: Option<nat>)
    requires from <= |c|
    ensures r.Some? ==> from <= r.value <= |c|
    decreases |c| - from
  {
    if KeyValueAt(c, key, pat, from).Some? then Some(from)
    else if from == |c| then None
    else MatchFrom(c, key, pat, from + 1)
  }

  /** The search finds the leftmost position where the key's pattern
      matches, and finds none exactly when it matches nowhere. */
  lemma {:induction false} MatchFromIsLeftmost(c: string, key: string, pat: ValuePattern, from: nat)
    requires from <= |c|
    ensures var r := MatchFrom(c, key, pat, from);
            && (r.None? <==> forall p :: from <= p <= |c| ==> KeyValueAt(c, key, pat, p).None?)
            && (r.Some? ==> KeyValueAt(c, key, pat, r.value).Some?
                            && forall p :: from <= p < r.value ==> KeyValueAt(c, key, pat, p).None?)
    decreases |c| - from
  {
    if KeyValueAt(c, key, pat, from).None? && from < |c| {
      MatchFromIsLeftmost(c, key, pat, from + 1);
    }
  }

  /** The value captured by the leftmost match of the key's pattern. */
  function Search(c: string, key: string, pat: ValuePattern): Option<string>
  {
    match MatchFrom(c, key, pat, 0)
    case Some(p) => KeyValueAt(c, key, pat, p)
    case None => None
  }

  /** What the numeric patterns capture is a string of digits. */
  lemma SearchDigits(c: string, key: string)
    ensures Search(c, key, DigitsOnly).Some? ==> AllDigits(Search(c, key, DigitsOnly).value)
  {
    match MatchFrom(c, key, DigitsOnly, 0)
    case Some(p) =>
      var start := p + |key| + 3;
      KeyValueAtIs(c, key, DigitsOnly, p);
      if start <= |c| && c[p..start] == Prefix(key) {
        ValueFromIsLongest(c, start, DigitsOnly);
      }
    case None =>
  }

  // ---------------------------------------------------------------------
  // Loading.

  datatype ConfigError =
    | InvalidInteger(key: string)   // `int('')` raises ValueError
    | AppendTypeError(key: string)  // `''.join` of a bool or an int raises TypeError

  /** The outcome of a load: the settings, the text of `settings.cfg`
      afterwards, and whether the destination directory is then made. */
  datatype Loaded = Loaded(settings: Settings, file: string, makesDestination: bool)

  function Line(key: string, value: string): string { key + " = " + value + "\n" }

  function ShowBool(b: bool): string { if b then "True" else "False" }

  /** The keys, in the order the file written for a fresh start lists them. */
  const Keys: seq<string> := ["subreddit", "is_quality_enforced", "is_resolution_enforced",
                              "set_as_wallpaper", "min_res_X", "min_res_Y", "destination"]

  /** Each setting's value as `str` writes it, in the order of `Keys`. */
  function Values(s: Settings): (vs: seq<string>)
    ensures |vs| == |Keys|
  {
    [s.subreddit, ShowBool(s.qualityEnforced), ShowBool(s.resolutionEnforced),
     ShowBool(s.setAsWallpaper), Show(s.minResX), Show(s.minResY), s.destination]
  }

  function Lines(keys: seq<string>, values: seq<string>): string
    requires |keys| == |values|
  {
    if keys == [] then "" else Line(keys[0], values[0]) + Lines(keys[1..], values[1..])
  }

  /** The file written when none exists: one `key = value` line per setting. */
  function Render(s: Settings): string
  {
    Lines(Keys, Values(s))
  }

  /** A text setting: its value when found, else the default together with
      the text appended to the file (no newline is written after it). */
  function LoadText(contents: string, key: string, default: string): (string, string)
  {
    match Search(contents, key, AnyText)
    case Some(v) => (v, "")
    case None => (default, Prefix(key) + default)
  }

  /** A boolean setting: true exactly when the value is `True`; a missing key
      fails, because the program appends `''.join([..., <bool>])`. */
  function LoadFlag(contents: string, key: string): Result<bool, ConfigError>
  {
    match Search(contents, key, AnyText)
    case Some(v) => Success(v == "True")
    case None => Failure(AppendTypeError(key))
  }

  /** A numeric setting: the decimal value of its digits; no digits at all
      make `int('')` fail, and a missing key fails like a boolean one. */
  function LoadNumber(contents: string, key: string): Result<nat, ConfigError>
  {
    match Search(contents, key, DigitsOnly)
    case Some(v) =>
      SearchDigits(contents, key);
      if v == "" then Failure(InvalidInteger(key)) else Success(Decimal(v))
    case None => Failure(AppendTypeError(key))
  }

  /** `update_settings` as a function of the defaults and of the settings
      file (`None` when it cannot be opened). */
  function Load(defaults: Settings, file: Option<string>): Result<Loaded, ConfigError>
  {
    match file
    case None => Success(Loaded(defaults, Render(defaults), false))
    case Some(contents) =>
      var (subreddit, appendSubreddit) := LoadText(contents, "subreddit", defaults.subreddit);
      var quality :- LoadFlag(contents, "is_quality_enforced");
      var resolution :- LoadFlag(contents, "is_resolution_enforced");
      var wallpaper :- LoadFlag(contents, "set_as_wallpaper");
      var minX :- LoadNumber(contents, "min_res_X");
      var minY :- LoadNumber(contents, "min_res_Y");
      var (destination, appendDestination) := LoadText(contents, "destination", defaults.destination);
      Success(Loaded(Settings(subreddit, quality, resolution, wallpaper, minX, minY, destination),
                     contents + appendSubreddit + appendDestination, true))
  }


  // ---------------------------------------------------------------------
  // Reading back a written file.

  /** Text that cannot end a line or look like a key's `=`. */
  predicate Plain(s: string)
  {
    forall i :: 0 <= i < |s| ==> s[i] != '\n' && s[i] != '='
  }

  lemma ValueFromLine(c: string, start: nat, v: string, pat: ValuePattern)
    requires start + |v| < |c| && c[start..start + |v|] == v && c[start + |v|] == '\n'
    requires forall i :: 0 <= i < |v| ==> Allowed(pat, v[i])
    ensures ValueFrom(c, start, pat) == Some(v)
  {
    assert forall i :: 0 <= i < |v| ==> c[start + i] == v[i];
    AllowedRunIsMaximal(c, pat, start);
    assert AllowedRunEnd(c, pat, start) == start + |v|;
  }

  /** A line that starts the text is matched by its own key's pattern. */
  lemma SearchFindsFirstLine(key: string, v: string, tail: string, pat: ValuePattern)
    requires forall i :: 0 <= i < |v| ==> Allowed(pat, v[i])
    ensures Search(Line(key, v) + tail, key, pat) == Some(v)
  {
    var c := Line(key, v) + tail;
    var start := |key| + 3;
    assert c[0..start] == Prefix(key);
    assert c[start..start + |v|] == v;
    ValueFromLine(c, start, v, pat);
    KeyValueAtIs(c, key, pat, 0);
  }

  /** No match of `key` starts inside a line for another key that does not
      end with `key`: the only `=` of the line sits right after its own key,
      and a match cannot run across the line's newline. */
  lemma NoMatchInsideLine(k2: string, v2: string, tail: string, key: string, pat: ValuePattern, p: nat)
    requires Plain(k2) && Plain(v2) && Plain(key) && !EndsWith(k2, key)
    requires p < |Line(k2, v2)|
    ensures KeyValueAt(Line(k2, v2) + tail, key, pat, p).None?
  {
    var c := Line(k2, v2) + tail;
    var end := p + |Prefix(key)|;
    KeyValueAtIs(c, key, pat, p);
    if end <= |c| && c[p..end] == Prefix(key) {
      if end <= |Line(k2, v2)| {
        PrefixInsideLine(k2, v2, tail, key, p);
      } else {
        PrefixAcrossNewline(k2, v2, tail, key, p);
      }
      assert false;
    }
  }

  lemma PrefixInsideLine(k2: string, v2: string, tail: string, key: string, p: nat)
    requires Plain(k2) && Plain(v2)
    requires p + |Prefix(key)| <= |Line(k2, v2)|
    requires (Line(k2, v2) + tail)[p..p + |Prefix(key)|] == Prefix(key)
    ensures EndsWith(k2, key)
  {
    var a := Line(k2, v2);
    var c := a + tail;
    var pre := Prefix(key);
    assert pre[|key| + 1] == '=';
    assert c[p + |key| + 1] == '=';
    assert a[p + |key| + 1] == '=';
    assert forall m :: 0 <= m < |k2| ==> a[m] == k2[m];
    assert forall m :: |k2| + 3 <= m < |k2| + 3 + |v2| ==> a[m] == v2[m - |k2| - 3];
    assert a[|k2|] == ' ' && a[|k2| + 2] == ' ' && a[|a| - 1] == '\n';
    assert p + |key| == |k2|;
    forall m | 0 <= m < |key| ensures k2[|k2| - |key| + m] == key[m] {
      assert c[p + m] == pre[m];
    }
    assert k2[|k2| - |key|..] == key;
  }

  lemma PrefixAcrossNewline(k2: string, v2: string, tail: string, key: string, p: nat)
    requires p < |Line(k2, v2)| < p + |Prefix(key)| <= |Line(k2, v2) + tail|
    requires (Line(k2, v2) + tail)[p..p + |Prefix(key)|] == Prefix(key)
    ensures !Plain(key)
  {
    var a := Line(k2, v2);
    var c := a + tail;
    var pre := Prefix(key);
    assert c[|a| - 1] == '\n';
    assert pre[|a| - 1 - p] == '\n';
    assert pre[|key|] == ' ' && pre[|key| + 1] == '=' && pre[|key| + 2] == ' ';
    assert key[|a| - 1 - p] == '\n';
  }

  lemma {:induction false} AllowedRunShift(a: string, b: string, pat: ValuePattern, i: nat)
    requires i <= |b|
    ensures AllowedRunEnd(a + b, pat, |a| + i) == |a| + AllowedRunEnd(b, pat, i)
    decreases |b| - i
  {
    if i < |b| {
      assert (a + b)[|a| + i] == b[i];
      AllowedRunShift(a, b, pat, i + 1);
    }
  }

  lemma {:induction false} LastTerminatorShift(a: string, b: string, lo: nat, n: int)
    requires n < |b|
    ensures LastTerminator(a + b, |a| + lo, |a| + n)
            == match LastTerminator(b, lo, n) case Some(m) => Some(|a| + m) case None => None
    decreases n + 1 - lo
  {
    if n >= lo {
      assert (a + b)[|a| + n] == b[n];
      LastTerminatorShift(a, b, lo, n - 1);
    }
  }

  lemma ValueFromShift(a: string, b: string, start: nat, pat: ValuePattern)
    requires start <= |b|
    ensures ValueFrom(a + b, |a| + start, pat) == ValueFrom(b, start, pat)
  {
    var run := AllowedRunEnd(b, pat, start);
    var hi := if run < |b| then run else run - 1;
    AllowedRunShift(a, b, pat, start);
    LastTerminatorShift(a, b, start, hi);
    match LastTerminator(b, start, hi)
    case Some(n) => assert (a + b)[|a| + start..|a| + n] == b[start..n];
    case None =>
  }

  /** Whether a match starts at a position depends only on the text from
      there on. */
  lemma MatchShift(a: string, b: string, key: string, pat: ValuePattern, q: nat)
    requires q <= |b|
    ensures KeyValueAt(a + b, key, pat, |a| + q) == KeyValueAt(b, key, pat, q)
  {
    var start := q + |key| + 3;
    KeyValueAtIs(a + b, key, pat, |a| + q);
    KeyValueAtIs(b, key, pat, q);
    if start <= |b| {
      assert (a + b)[|a| + q..|a| + start] == b[q..start];
      ValueFromShift(a, b, start, pat);
    }
  }

  lemma {:induction false} SkipLinePositions(k2: string, v2: string, tail: string, key: string, pat: ValuePattern, p: nat)
    requires Plain(k2) && Plain(v2) && Plain(key) && !EndsWith(k2, key)
    requires p <= |Line(k2, v2)|
    ensures MatchFrom(Line(k2, v2) + tail, key, pat, p) == MatchFrom(Line(k2, v2) + tail, key, pat, |Line(k2, v2)|)
    decreases |Line(k2, v2)| - p
  {
    if p < |Line(k2, v2)| {
      NoMatchInsideLine(k2, v2, tail, key, pat, p);
      SkipLinePositions(k2, v2, tail, key, pat, p + 1);
    }
  }

  lemma {:induction false} ShiftPositions(a: string, tail: string, key: string, pat: ValuePattern, q: nat)
    requires q <= |tail|
    ensures MatchFrom(tail, key, pat, q).Some?
            ==> MatchFrom(a + tail, key, pat, |a| + q) == Some(|a| + MatchFrom(tail, key, pat, q).value)
    ensures MatchFrom(tail, key, pat, q).None? ==> MatchFrom(a + tail, key, pat, |a| + q).None?
    decreases |tail| - q
  {
    MatchShift(a, tail, key, pat, q);
    if q < |tail| {
      ShiftPositions(a, tail, key, pat, q + 1);
    }
  }

  /** Searching past a line for another key gives what searching the text
      after it gives. */
  lemma SearchSkipsLine(k2: string, v2: string, tail: string, key: string, pat: ValuePattern)
    requires Plain(k2) && Plain(v2) && Plain(key) && !EndsWith(k2, key)
    ensures Search(Line(k2, v2) + tail, key, pat) == Search(tail, key, pat)
  {
    SkipLinePositions(k2, v2, tail, key, pat, 0);
    SearchPastPrefix(Line(k2, v2), tail, key, pat);
  }

  /** When no match starts inside `a`, searching `a + tail` gives what
      searching `tail` gives. */
  lemma SearchPastPrefix(a: string, tail: string, key: string, pat: ValuePattern)
    requires MatchFrom(a + tail, key, pat, 0) == MatchFrom(a + tail, key, pat, |a|)
    ensures Search(a + tail, key, pat) == Search(tail, key, pat)
  {
    var r := MatchFrom(tail, key, pat, 0);
    ShiftPositions(a, tail, key, pat, 0);
    if r.Some? {
      FoundPastPrefix(a, tail, key, pat, r.value);
    } else {
      NoneFound(a + tail, key, pat);
      NoneFound(tail, key, pat);
    }
  }

  lemma FoundPastPrefix(a: string, tail: string, key: string, pat: ValuePattern, x: nat)
    requires x <= |tail|
    requires MatchFrom(tail, key, pat, 0) == Some(x)
    requires MatchFrom(a + tail, key, pat, 0) == Some(|a| + x)
    ensures Search(a + tail, key, pat) == Search(tail, key, pat)
  {
    MatchShift(a, tail, key, pat, x);
  }

  lemma NoneFound(c: string, key: string, pat: ValuePattern)
    requires MatchFrom(c, key, pat, 0).None?
    ensures Search(c, key, pat).None?
  {
  }

  /** In a file of `key = value` lines, a key is found with its own line's
      value when no earlier line's key ends with it. */
  lemma {:induction false} SearchLines(keys: seq<string>, values: seq<string>, i: nat, pat: ValuePattern)
    requires |keys| == |values| && i < |keys|
    requires forall m :: 0 <= m < |keys| ==> Plain(keys[m]) && Plain(values[m])
    requires forall m :: 0 <= m < i ==> !EndsWith(keys[m], keys[i])
    requires forall k :: 0 <= k < |values[i]| ==> Allowed(pat, values[i][k])
    ensures Search(Lines(keys, values), keys[i], pat) == Some(values[i])
  {
    if i == 0 {
      SearchFindsFirstLine(keys[0], values[0], Lines(keys[1..], values[1..]), pat);
    } else {
      SearchSkipsLine(keys[0], values[0], Lines(keys[1..], values[1..]), keys[i], pat);
      SearchLines(keys[1..], values[1..], i - 1, pat);
    }
  }

  /** No key of the file is a suffix of a later one, so searching for a key
      never stops at an earlier line. */
  lemma KeysAreSeparate()
    ensures forall m :: 0 <= m < |Keys| ==> Plain(Keys[m])
    ensures forall m, i :: 0 <= m < i < |Keys| ==> !EndsWith(Keys[m], Keys[i])
  {
    forall m | 0 <= m < |Keys| ensures Plain(Keys[m]) {
      assert forall i :: 0 <= i < |Keys[m]| ==> 'A' <= Keys[m][i] <= 'z';
    }
    forall m, i | 0 <= m < i < |Keys| ensures !EndsWith(Keys[m], Keys[i]) {
      var a, b := Keys[m], Keys[i];
      if |b| <= |a| {
        assert a[|a| - 1] != b[|b| - 1];
        LastCharsDiffer(a, b);
      }
    }
  }

  lemma LastCharsDiffer(a: string, b: string)
    requires 0 < |b| <= |a| && a[|a| - 1] != b[|b| - 1]
    ensures !EndsWith(a, b)
  {
    assert a[|a| - |b|..][|b| - 1] == a[|a| - 1];
  }

  lemma DigitsArePlain(ds: string)
    requires AllDigits(ds)
    ensures Plain(ds) && forall k :: 0 <= k < |ds| ==> Allowed(DigitsOnly, ds[k])
  {
  }

  lemma PlainIsText(v: string)
    requires Plain(v)
    ensures forall k :: 0 <= k < |v| ==> Allowed(AnyText, v[k])
  {
  }

  /** Each key of the file written for a fresh start is found with the value
      written on its own line. */
  lemma RenderSearch(s: Settings, i: nat, pat: ValuePattern)
    requires Plain(s.subreddit) && Plain(s.destination)
    requires i < |Keys| && (pat == DigitsOnly <==> i == 4 || i == 5)
    ensures Search(Render(s), Keys[i], pat) == Some(Values(s)[i])
  {
    var vs := Values(s);
    KeysAreSeparate();
    DigitsArePlain(Show(s.minResX));
    DigitsArePlain(Show(s.minResY));
    assert Plain(vs[1]) && Plain(vs[2]) && Plain(vs[3]);
    if pat == AnyText {
      PlainIsText(vs[i]);
    }
    SearchLines(Keys, vs, i, pat);
  }

  /** A file in which every key is found, the numbers with the digits of
      `str`, loads as the settings found and appends nothing. */
  lemma LoadFindsAll(defaults: Settings, c: string, s: Settings)
    requires Search(c, "subreddit", AnyText) == Some(s.subreddit)
    requires Search(c, "is_quality_enforced", AnyText) == Some(ShowBool(s.qualityEnforced))
    requires Search(c, "is_resolution_enforced", AnyText) == Some(ShowBool(s.resolutionEnforced))
    requires Search(c, "set_as_wallpaper", AnyText) == Some(ShowBool(s.setAsWallpaper))
    requires Search(c, "min_res_X", DigitsOnly) == Some(Show(s.minResX))
    requires Search(c, "min_res_Y", DigitsOnly) == Some(Show(s.minResY))
    requires Search(c, "destination", AnyText) == Some(s.destination)
    ensures Load(defaults, Some(c)) == Success(Loaded(s, c, true))
  {
    DecimalOfShow(s.minResX);
    DecimalOfShow(s.minResY);
    assert LoadText(c, "subreddit", defaults.subreddit) == (s.subreddit, "");
    assert LoadFlag(c, "is_quality_enforced") == Success(s.qualityEnforced);
    assert LoadFlag(c, "is_resolution_enforced") == Success(s.resolutionEnforced);
    assert LoadFlag(c, "set_as_wallpaper") == Success(s.setAsWallpaper);
    assert LoadNumber(c, "min_res_X") == Success(s.minResX);
    assert LoadNumber(c, "min_res_Y") == Success(s.minResY);
    assert LoadText(c, "destination", defaults.destination) == (s.destination, "");
    assert c + "" + "" == c;
  }

  /** Loading the file written for a fresh start gives back the settings it
      was written from and appends nothing, provided the two text settings
      hold no newline and no `=`. */
  lemma RenderReadsBack(s: Settings, defaults: Settings)
    requires Plain(s.subreddit) && Plain(s.destination)
    ensures Load(defaults, Some(Render(s))) == Success(Loaded(s, Render(s), true))
  {
    RenderSearch(s, 0, AnyText);
    RenderSearch(s, 1, AnyText);
    RenderSearch(s, 2, AnyText);
    RenderSearch(s, 3, AnyText);
    RenderSearch(s, 4, DigitsOnly);
    RenderSearch(s, 5, DigitsOnly);
    RenderSearch(s, 6, AnyText);
    LoadFindsAll(defaults, Render(s), s);
  }

  /** A key's line is found, with its value, after any number of lines for
      other keys, provided none of those keys ends with the key. */
  lemma {:induction false} SearchAfterLines(keys: seq<string>, values: seq<string>, key: string, v: string,
                                            tail: string, pat: ValuePattern)
    requires |keys| == |values| && Plain(key)
    requires forall m :: 0 <= m < |keys| ==> Plain(keys[m]) && Plain(values[m]) && !EndsWith(keys[m], key)
    requires forall k :: 0 <= k < |v| ==> Allowed(pat, v[k])
    ensures Search(Lines(keys, values) + (Line(key, v) + tail), key, pat) == Some(v)
    decreases |keys|
  {
    if keys == [] {
      assert Lines(keys, values) + (Line(key, v) + tail) == Line(key, v) + tail;
      SearchFindsFirstLine(key, v, tail, pat);
    } else {
      var rest := Lines(keys[1..], values[1..]) + (Line(key, v) + tail);
      assert Lines(keys, values) + (Line(key, v) + tail) == Line(keys[0], values[0]) + rest;
      SearchSkipsLine(keys[0], values[0], rest, key, pat);
      SearchAfterLines(keys[1..], values[1..], key, v, tail, pat);
    }
  }

  /** A flag found in the file is on only when its value is exactly `True`:
      any other text, `true` or `TRUE` included, turns it off. */
  lemma FlagIsExactlyTrue(keys: seq<string>, values: seq<string>, key: string, v: string, tail: string)
    requires |keys| == |values| && Plain(key) && Plain(v)
    requires forall m :: 0 <= m < |keys| ==> Plain(keys[m]) && Plain(values[m]) && !EndsWith(keys[m], key)
    ensures LoadFlag(Lines(keys, values) + (Line(key, v) + tail), key) == Success(v == "True")
  {
    PlainIsText(v);
    SearchAfterLines(keys, values, key, v, tail, AnyText);
  }

  /** A number found in the file is read from the digits on its line. */
  lemma NumberFromDigits(keys: seq<string>, values: seq<string>, key: string, ds: string, tail: string)
    requires |keys| == |values| && Plain(key) && AllDigits(ds) && ds != ""
    requires forall m :: 0 <= m < |keys| ==> Plain(keys[m]) && Plain(values[m]) && !EndsWith(keys[m], key)
    ensures LoadNumber(Lines(keys, values) + (Line(key, ds) + tail), key) == Success(Decimal(ds))
  {
    DigitsArePlain(ds);
    SearchAfterLines(keys, values, key, ds, tail, DigitsOnly);
  }

  /** A number whose line holds no digits makes the load fail. */
  lemma EmptyNumberFails(keys: seq<string>, values: seq<string>, key: string, tail: string)
    requires |keys| == |values| && Plain(key)
    requires forall m :: 0 <= m < |keys| ==> Plain(keys[m]) && Plain(values[m]) && !EndsWith(keys[m], key)
    ensures LoadNumber(Lines(keys, values) + (Line(key, "") + tail), key) == Failure(InvalidInteger(key))
  {
    SearchAfterLines(keys, values, key, "", tail, DigitsOnly);
  }

  /** A missing subreddit keeps its default and is appended to the file
      right after the text read, without a newline. */
  lemma MissingSubredditKeepsDefault(defaults: Settings, c: string)
    requires Search(c, "subreddit", AnyText).None?
    requires Load(defaults, Some(c)).Success?
    ensures var l := Load(defaults, Some(c)).value;
            && l.settings.subreddit == defaults.subreddit
            && StartsWith(l.file, c + Prefix("subreddit") + defaults.subreddit)
  {
    var appended := Prefix("subreddit") + defaults.subreddit;
    assert LoadText(c, "subreddit", defaults.subreddit) == (defaults.subreddit, appended);
    var l := Load(defaults, Some(c)).value;
    var rest := LoadText(c, "destination", defaults.destination).1;
    assert l.file == (c + appended) + rest;
    assert c + appended == c + Prefix("subreddit") + defaults.subreddit;
  }

  /** A destination missing from the file keeps its default, and
      `destination = <default>` is appended at the very end of the file. */
  lemma MissingDestinationKeepsDefault(defaults: Settings, c: string)
    requires Search(c, "destination", AnyText).None?
    requires Load(defaults, Some(c)).Success?
    ensures var l := Load(defaults, Some(c)).value;
            && l.settings.destination == defaults.destination
            && EndsWith(l.file, Prefix("destination") + defaults.destination)
  {
    var appended := Prefix("destination") + defaults.destination;
    assert LoadText(c, "destination", defaults.destination) == (defaults.destination, appended);
    var l := Load(defaults, Some(c)).value;
    var before := c + LoadText(c, "subreddit", defaults.subreddit).1;
    assert l.file == before + appended;
    assert l.file[|l.file| - |appended|..] == appended;
  }

  /** A setting appended without a newline is not read back from where it
      was appended: with no `\n` or `$` in the value, nothing after the
      `<key> = ` ends it. */
  lemma AppendedLineIsNotRead(c: string, key: string, v: string)
    requires forall m :: 0 <= m < |v| ==> !IsTerminator(v[m])
    ensures KeyValueAt(c + Prefix(key) + v, key, AnyText, |c|).None?
  {
    var t := c + Prefix(key) + v;
    var start := |c| + |key| + 3;
    KeyValueAtIs(t, key, AnyText, |c|);
    assert t[|c|..start] == Prefix(key);
    ValueFromIsLongest(t, start, AnyText);
    forall n | start <= n < |t| ensures !ValueEndsAt(t, start, AnyText, n) {
      assert t[n] == v[n - start];
    }
  }

  /** The pattern the key `Keys[i]` is searched with. */
  function PatternOf(i: nat): ValuePattern { if i == 4 || i == 5 then DigitsOnly else AnyText }

  /** A key whose value loads: found, and with digits when it is a number. */
  predicate LoadsAt(c: string, i: nat)
    requires i < |Keys|
  {
    Search(c, Keys[i], PatternOf(i)).Some? && (PatternOf(i) == DigitsOnly ==> Search(c, Keys[i], PatternOf(i)) != Some(""))
  }

  /** A missing boolean or numeric key makes the load fail, with the error
      of that key or of an earlier boolean or numeric one; when those earlier
      keys load, with the `TypeError` of its own append. */
  lemma MissingFlagFails(defaults: Settings, c: string, i: nat)
    requires 1 <= i <= 5
    requires Search(c, Keys[i], PatternOf(i)).None?
    ensures Load(defaults, Some(c)).Failure?
    ensures Load(defaults, Some(c)).error.key in Keys[1..i + 1]
    ensures (forall m :: 1 <= m < i ==> LoadsAt(c, m)) ==> Load(defaults, Some(c)).error == AppendTypeError(Keys[i])
  {
    var r := Load(defaults, Some(c));
    var q, res, w := LoadFlag(c, Keys[1]), LoadFlag(c, Keys[2]), LoadFlag(c, Keys[3]);
    var x, y := LoadNumber(c, Keys[4]), LoadNumber(c, Keys[5]);
    assert Keys[1..i + 1] == Keys[1..][..i];
    if q.Failure? {
      assert r == Failure(q.error) && !LoadsAt(c, 1);
    } else if res.Failure? {
      assert r == Failure(res.error) && !LoadsAt(c, 2);
    } else if w.Failure? {
      assert r == Failure(w.error) && !LoadsAt(c, 3);
    } else if x.Failure? {
      assert r == Failure(x.error) && !LoadsAt(c, 4);
    } else {
      assert y.Failure? && r == Failure(y.error);
    }
  }

  /** The settings as the program holds them while it runs: `SETTINGS` and
      the text of `settings.cfg` (`None` while it cannot be read). */
  class SettingsStore {
    var settings: Settings
    var file: Option<string>

    constructor (scriptDir: string, file: Option<string>)
      ensures settings == Defaults(scriptDir) && this.file == file
    {
      settings := Defaults(scriptDir);
      this.file := file;
    }

    /** `update_settings`: key by key, a value found in the file replaces the
        setting and a missing one is appended to the file; a missing boolean
        or numeric key, or an empty number, stops the update with the
        changes made so far. */
    method UpdateSettings() returns (err: Option<ConfigError>)
      modifies this
      ensures Load(old(settings), old(file)).Success? ==>
                var l := Load(old(settings), old(file)).value;
                err.None? && settings == l.settings && file == Some(l.file)
      ensures Load(old(settings), old(file)).Failure? ==>
                var (subreddit, appended) := LoadText(old(file).value, "subreddit", old(settings).subreddit);
                && err == Some(Load(old(settings), old(file)).error)
                && settings.subreddit == subreddit && settings.destination == old(settings).destination
                && file == Some(old(file).value + appended)
    {
      if file.None? {
        file := Some(Render(settings));
        return None;
      }
      var contents := file.value;
      var s := settings;
      var (subreddit, appended) := LoadText(contents, "subreddit", s.subreddit);
      s := s.(subreddit := subreddit);
      var f := contents + appended;
      var quality := LoadFlag(contents, "is_quality_enforced");
      if quality.Failure? {
        settings, file := s, Some(f);
        return Some(quality.error);
      }
      s := s.(qualityEnforced := quality.value);
      var resolution := LoadFlag(contents, "is_resolution_enforced");
      if resolution.Failure? {
        settings, file := s, Some(f);
        return Some(resolution.error);
      }
      s := s.(resolutionEnforced := resolution.value);
      var wallpaper := LoadFlag(contents, "set_as_wallpaper");
      if wallpaper.Failure? {
        settings, file := s, Some(f);
        return Some(wallpaper.error);
      }
      s := s.(setAsWallpaper := wallpaper.value);
      var minX := LoadNumber(contents, "min_res_X");
      if minX.Failure? {
        settings, file := s, Some(f);
        return Some(minX.error);
      }
      s := s.(minResX := minX.value);
      var minY := LoadNumber(contents, "min_res_Y");
      if minY.Failure? {
        settings, file := s, Some(f);
        return Some(minY.error);
      }
      s := s.(minResY := minY.value);
      var (destination, appendedDestination) := LoadText(contents, "destination", s.destination);
      s := s.(destination := destination);
      f := f + appendedDestination;
      settings, file := s, Some(f);
      return None;
    }
  }
}
