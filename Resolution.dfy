/** The resolution tag of a post title: the leftmost match of
    `[<(\[](?P<resX>[0-9]+?)x(?P<resY>[0-9]+?)[>)\]]`. The opening and closing
    brackets are chosen independently, so `[1920x1080)` is a tag too. Because
    neither `x` nor a closing bracket is a digit, each lazy `[0-9]+?` ends up
    covering the whole run of digits before them. */
module Resolution {
  import opened Wrappers
  import opened Text

  datatype Resolution = Resolution(width: nat, height: nat)

  predicate IsOpenBracket(c: char) { c == '<' || c == '(' || c == '[' }

  predicate IsCloseBracket(c: char) { c == '>' || c == ')' || c == ']' }

  /** The pattern's shape at `i`: `t[i]` opens, `t[i+1..j]` are digits, `t[j]`
      is `x`, `t[j+1..k]` are digits and `t[k]` closes. */
  ghost predicate TagShape(t: string, i: nat, j: nat, k: nat)
  {
    && i + 1 < j && j + 1 < k < |t|
    && IsOpenBracket(t[i]) && t[j] == 'x' && IsCloseBracket(t[k])
    && AllDigits(t[i + 1..j]) && AllDigits(t[j + 1..k])
  }

  /** The match of the pattern that starts at `i`, if there is one. */
  function TagAt(t: string, i: nat): (r: Option<Resolution>)
    requires i <= |t|
  {
    if i < |t| && IsOpenBracket(t[i]) then
      var j := DigitRunEnd(t, i + 1);
      if i + 1 < j && j < |t| && t[j] == 'x' then
        var k := DigitRunEnd(t, j + 1);
        if j + 1 < k && k < |t| && IsCloseBracket(t[k]) then
          Some(Resolution(Decimal(t[i + 1..j]), Decimal(t[j + 1..k])))
        else None
      else None
    else None
  }

  /** A match starts at `i` exactly when the text there has the pattern's
      shape, and its groups are the two digit strings of that shape. */
  lemma TagAtMeansShape(t: string, i: nat)
    requires i <= |t|
    ensures TagAt(t, i).Some? <==> exists j: nat, k: nat :: TagShape(t, i, j, k)
    ensures forall j: nat, k: nat :: TagShape(t, i, j, k) ==>
              TagAt(t, i) == Some(Resolution(Decimal(t[i + 1..j]), Decimal(t[j + 1..k])))
  {
    if TagAt(t, i).Some? {
      var j := DigitRunEnd(t, i + 1);
      var k := DigitRunEnd(t, j + 1);
      assert TagShape(t, i, j, k);
    }
    forall j: nat, k: nat | TagShape(t, i, j, k)
      ensures TagAt(t, i) == Some(Resolution(Decimal(t[i + 1..j]), Decimal(t[j + 1..k])))
    {
      ShapeFixesRun(t, i + 1, j);
      ShapeFixesRun(t, j + 1, k);
    }
  }

  lemma ShapeFixesRun(t: string, from: nat, to: nat)
    requires from <= to < |t|
    requires AllDigits(t[from..to]) && !IsDigit(t[to])
    ensures DigitRunEnd(t, from) == to
  {
  }

  /** `re.search` from position `from`: the leftmost match at or after it. */
  function FindTagFrom(t: string, from: nat): Option<Resolution>
    requires from <= |t|
    decreases |t| - from
  {
    if from == |t| then None
    else match TagAt(t, from)
      case Some(res) => Some(res)
      case None => FindTagFrom(t, from + 1)
  }

  /** `re.search` from `from` finds nothing exactly when no position at or
      after `from` matches. */
  lemma {:induction false} FindTagFromNone(t: string, from: nat)
    requires from <= |t|
    ensures FindTagFrom(t, from).None? <==> forall i :: from <= i <= |t| ==> TagAt(t, i).None?
    decreases |t| - from
  {
    if from < |t| && TagAt(t, from).None? {
      FindTagFromNone(t, from + 1);
    }
  }

  /** What `re.search` from `from` finds is the match at the first position
      at or after `from` that matches. */
  lemma {:induction false} FindTagFromFirst(t: string, from: nat)
    requires from <= |t|
    ensures FindTagFrom(t, from).Some? ==>
              exists i :: from <= i < |t| && TagAt(t, i) == FindTagFrom(t, from)
                          && forall i' :: from <= i' < i ==> TagAt(t, i').None?
    decreases |t| - from
  {
    if from < |t| && TagAt(t, from).None? {
      FindTagFromFirst(t, from + 1);
    }
  }

  /** The tag the program reads from a title. */
  function FindTag(title: string): Option<Resolution>
  {
    FindTagFrom(title, 0)
  }

  /** The tag read is the leftmost match: there is none exactly when no
      position matches, and otherwise it is the match at the first position
      that matches; later tags in the same title are never tried. */
  lemma FindTagIsLeftmost(title: string)
    ensures FindTag(title).None? <==> forall i :: 0 <= i <= |title| ==> TagAt(title, i).None?
    ensures FindTag(title).Some? ==>
              exists i :: 0 <= i < |title| && TagAt(title, i) == FindTag(title)
                          && forall i' :: 0 <= i' < i ==> TagAt(title, i').None?
  {
    FindTagFromNone(title, 0);
    FindTagFromFirst(title, 0);
  }
}
