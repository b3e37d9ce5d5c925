/** Character and string helpers shared by the model: ASCII case folding,
    prefix and suffix tests, runs of digits, decimal conversion in both
    directions (`int(...)` and `str(...)` on non-negative integers), and the
    `\w+` tokenizer used on the subreddit setting. */
module Text {

  predicate IsDigit(c: char) { '0' <= c <= '9' }

  predicate AllDigits(s: string) { forall i :: 0 <= i < |s| ==> IsDigit(s[i]) }

  /** `\w` of a byte-string pattern without the UNICODE or LOCALE flag. */
  predicate IsWordChar(c: char) { 'a' <= c <= 'z' || 'A' <= c <= 'Z' || IsDigit(c) || c == '_' }

  function LowerChar(c: char): char
  {
    if 'A' <= c <= 'Z' then (c as int + 32) as char else c
  }

  /** `string.lower`, restricted to ASCII letters. */
  function Lower(s: string): (r: string)
    ensures |r| == |s|
    ensures forall i :: 0 <= i < |s| ==> r[i] == LowerChar(s[i])
  {
    seq(|s|, i requires 0 <= i < |s| => LowerChar(s[i]))
  }

  predicate StartsWith(s: string, prefix: string)
  {
    |prefix| <= |s| && s[..|prefix|] == prefix
  }

  predicate EndsWith(s: string, suffix: string)
  {
    |suffix| <= |s| && s[|s| - |suffix|..] == suffix
  }

  /** The end of the run of digits that starts at `i`. */
  function DigitRunEnd(s: string, i: nat): (j: nat)
    requires i <= |s|
    ensures i <= j <= |s|
    ensures forall k :: i <= k < j ==> IsDigit(s[k])
    ensures j < |s| ==> !IsDigit(s[j])
    decreases |s| - i
  {
    if i < |s| && IsDigit(s[i]) then DigitRunEnd(s, i + 1) else i
  }

  function DigitValue(c: char): nat
    requires IsDigit(c)
  {
    c as int - '0' as int
  }

  function DigitChar(d: nat): char
    requires d < 10
  {
    ('0' as int + d) as char
  }

  /** `int(ds)` for a string of ASCII digits (leading zeros allowed). */
  function Decimal(ds: string): nat
    requires AllDigits(ds)
    decreases |ds|
  {
    if ds == [] then 0 else Decimal(ds[..|ds| - 1]) * 10 + DigitValue(ds[|ds| - 1])
  }

  /** `str(n)` for a non-negative integer. */
  function Show(n: nat): (r: string)
    ensures |r| > 0 && AllDigits(r)
  {
    if n < 10 then [DigitChar(n)] else Show(n / 10) + [DigitChar(n % 10)]
  }

  /** Reading back what `str` wrote gives the number again. */
  lemma {:induction false} DecimalOfShow(n: nat)
    ensures Decimal(Show(n)) == n
  {
    if n >= 10 {
      var prefix := Show(n / 10);
      var r := Show(n);
      assert r == prefix + [DigitChar(n % 10)];
      assert r[..|r| - 1] == prefix;
      DecimalOfShow(n / 10);
    }
  }

  /** The end of the run of `\w` characters that starts at `i`. */
  function WordRunEnd(s: string, i: nat): (j: nat)
    requires i <= |s|
    ensures i <= j <= |s|
    ensures forall k :: i <= k < j ==> IsWordChar(s[k])
    ensures j < |s| ==> !IsWordChar(s[j])
    decreases |s| - i
  {
    if i < |s| && IsWordChar(s[i]) then WordRunEnd(s, i + 1) else i
  }

  /** `re.findall('\w+', s)`: the maximal runs of word characters, left to right. */
  function WordTokens(s: string): (ts: seq<string>)
    ensures forall k :: 0 <= k < |ts| ==> |ts[k]| > 0
    ensures forall k, i :: 0 <= k < |ts| && 0 <= i < |ts[k]| ==> IsWordChar(ts[k][i])
    decreases |s|
  {
    if s == [] then []
    else if !IsWordChar(s[0]) then WordTokens(s[1..])
    else
      var j := WordRunEnd(s, 0);
      [s[..j]] + WordTokens(s[j..])
  }

  /** A run of word characters that stops where `a` holds a non-word
      character, or at the end of `a` when a non-word character follows, is
      not changed by what follows `a`. */
  lemma {:induction false} WordRunEndOfPrefix(a: string, t: string, i: nat)
    requires i <= |a|
    requires WordRunEnd(a, i) == |a| ==> t != [] && !IsWordChar(t[0])
    ensures WordRunEnd(a + t, i) == WordRunEnd(a, i)
    decreases |a| - i
  {
    if i < |a| {
      assert (a + t)[i] == a[i];
      if IsWordChar(a[i]) {
        WordRunEndOfPrefix(a, t, i + 1);
      }
    } else {
      assert (a + t)[i] == t[0];
    }
  }

  /** A word made only of word characters is one token, whole: the runs are
      maximal, so it is never split. */
  lemma WordTokensOfWord(w: string)
    requires w != [] && forall i :: 0 <= i < |w| ==> IsWordChar(w[i])
    ensures WordTokens(w) == [w]
  {
    var j := WordRunEnd(w, 0);
    assert j == |w|;
    assert w[..j] == w;
  }

  /** A non-word character separates the tokens: those of `a`, then those
      of `b`, and no token runs across it. */
  lemma {:induction false} WordTokensSplit(a: string, c: char, b: string)
    requires !IsWordChar(c)
    ensures WordTokens(a + [c] + b) == WordTokens(a) + WordTokens(b)
    decreases |a|
  {
    var s := a + [c] + b;
    if a == [] {
      assert s == [c] + b;
      assert s[1..] == b;
    } else if !IsWordChar(a[0]) {
      assert s[0] == a[0];
      assert s[1..] == a[1..] + [c] + b;
      WordTokensSplit(a[1..], c, b);
    } else {
      assert s[0] == a[0];
      var j := WordRunEnd(a, 0);
      assert s == a + ([c] + b);
      WordRunEndOfPrefix(a, [c] + b, 0);
      assert WordRunEnd(s, 0) == j;
      assert s[..j] == a[..j];
      assert s[j..] == a[j..] + [c] + b;
      WordTokensSplit(a[j..], c, b);
    }
  }

  /** The word characters of `s`, in order. */
  function WordChars(s: string): string
    decreases |s|
  {
    if s == [] then [] else (if IsWordChar(s[0]) then [s[0]] else []) + WordChars(s[1..])
  }

  function Concat(ts: seq<string>): string
  {
    if ts == [] then [] else ts[0] + Concat(ts[1..])
  }

  lemma {:induction false} WordCharsOfRun(s: string, j: nat)
    requires j <= |s|
    requires forall k :: 0 <= k < j ==> IsWordChar(s[k])
    ensures WordChars(s) == s[..j] + WordChars(s[j..])
    decreases j
  {
    if j > 0 {
      WordCharsOfRun(s[1..], j - 1);
      assert s[1..][j - 1..] == s[j..];
      assert s[..j] == [s[0]] + s[1..][..j - 1];
    }
  }

  /** The tokens, put back together, are exactly the word characters of the
      setting: nothing is lost and nothing is added. */
  lemma {:induction false} WordTokensCover(s: string)
    ensures Concat(WordTokens(s)) == WordChars(s)
    decreases |s|
  {
    if s == [] {
    } else if !IsWordChar(s[0]) {
      WordTokensCover(s[1..]);
    } else {
      var j := WordRunEnd(s, 0);
      var ts := WordTokens(s);
      assert ts == [s[..j]] + WordTokens(s[j..]);
      assert ts[1..] == WordTokens(s[j..]);
      WordTokensCover(s[j..]);
      WordCharsOfRun(s, j);
    }
  }

  /** No token is found exactly when the setting holds no word character. */
  lemma WordTokensEmpty(s: string)
    ensures WordTokens(s) == [] <==> forall i :: 0 <= i < |s| ==> !IsWordChar(s[i])
  {
    WordTokensCover(s);
    WordCharsEmpty(s);
    if WordTokens(s) != [] {
      var ts := WordTokens(s);
      assert Concat(ts) == ts[0] + Concat(ts[1..]);
    }
  }

  lemma {:induction false} WordCharsEmpty(s: string)
    ensures WordChars(s) == [] <==> forall i :: 0 <= i < |s| ==> !IsWordChar(s[i])
    decreases |s|
  {
    if s != [] {
      WordCharsEmpty(s[1..]);
      assert forall i :: 1 <= i < |s| ==> s[i] == s[1..][i - 1];
    }
  }

  /** `s.find(c, i)`, with "not found" written as `|s|`. */
  function IndexFrom(s: string, c: char, i: nat): (r: nat)
    requires i <= |s|
    ensures i <= r <= |s|
    ensures r < |s| ==> s[r] == c
    ensures forall m :: i <= m < r ==> s[m] != c
    decreases |s| - i
  {
    if i == |s| || s[i] == c then i else IndexFrom(s, c, i + 1)
  }

  /** `posixpath.join(a, b)` for two components: an absolute `b` replaces
      `a`; otherwise `b` follows `a`, with a `/` between them unless `a` is
      empty or already ends with one. */
  function JoinPath(a: string, b: string): (r: string)
    ensures EndsWith(r, b)
    ensures StartsWith(b, "/") ==> r == b
    ensures !StartsWith(b, "/") ==> r == (if a == "" || EndsWith(a, "/") then a + b else a + "/" + b)
  {
    if StartsWith(b, "/") then b
    else if a == "" || EndsWith(a, "/") then a + b
    else a + "/" + b
  }
}
