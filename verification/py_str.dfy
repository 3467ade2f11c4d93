/**
 * Python's `str.replace`, `str.split(sep)` and `sep.join(parts)` on strings,
 * restricted to a non-empty search string (every caller in the program passes
 * a literal placeholder token).
 */
module PyStr {
  import opened Wrappers

  /** `t` occurs in `s` starting at index `i`. */
  predicate OccursAt(s: string, t: string, i: int)
  {
    0 <= i && i + |t| <= |s| && s[i..i + |t|] == t
  }

  /** `t` occurs somewhere in `s` (Python's `t in s`). */
  predicate Occurs(s: string, t: string)
  {
    exists i :: 0 <= i <= |s| && OccursAt(s, t, i)
  }

  /** An occurrence one position further into `s` is an occurrence in `s[1..]`. */
  lemma OccursAtShift(s: string, t: string, i: int)
    requires |s| > 0 && i >= 0
    ensures OccursAt(s, t, i + 1) <==> OccursAt(s[1..], t, i)
  {
    if 0 <= i && i + 1 + |t| <= |s| {
      assert s[1..][i..i + |t|] == s[i + 1..i + 1 + |t|];
    }
  }

  /** An occurrence inside a prefix of `s` is an occurrence in `s`. */
  lemma OccursAtPrefix(s: string, t: string, n: int, j: int)
    requires 0 <= n <= |s|
    requires OccursAt(s[..n], t, j)
    ensures OccursAt(s, t, j) && j + |t| <= n
  {
    assert s[..n][j..j + |t|] == s[j..j + |t|];
  }

  /** Index of the leftmost occurrence of `t` in `s` (Python's `str.find`). */
  function Find(s: string, t: string): (r: Option<nat>)
    requires |t| > 0
    ensures r.Some? ==> OccursAt(s, t, r.value)
    ensures r.Some? ==> forall j :: 0 <= j < r.value ==> !OccursAt(s, t, j)
    ensures r.None? <==> !Occurs(s, t)
    decreases |s|
  {
    if |s| < |t| then None
    else if s[..|t|] == t then assert OccursAt(s, t, 0); Some(0)
    else
      var rest := Find(s[1..], t);
      FindStep(s, t, rest);
      match rest
      case None => None
      case Some(j) => Some(j + 1)
  }

  /** How a search of `s[1..]` carries over to `s` when `t` is not at index 0. */
  lemma FindStep(s: string, t: string, rest: Option<nat>)
    requires |t| > 0 && |s| >= |t| && s[..|t|] != t
    requires rest.Some? ==> OccursAt(s[1..], t, rest.value)
    requires rest.Some? ==> forall j :: 0 <= j < rest.value ==> !OccursAt(s[1..], t, j)
    requires rest.None? <==> !Occurs(s[1..], t)
    ensures rest.Some? ==> OccursAt(s, t, rest.value + 1)
    ensures rest.Some? ==> forall j :: 0 <= j < rest.value + 1 ==> !OccursAt(s, t, j)
    ensures rest.None? <==> !Occurs(s, t)
  {
    if rest.Some? {
      OccursAtShift(s, t, rest.value);
      forall j | 0 <= j < rest.value + 1
        ensures !OccursAt(s, t, j)
      {
        if j > 0 {
          OccursAtShift(s, t, j - 1);
        }
      }
    }
    if Occurs(s, t) {
      var i :| 0 <= i <= |s| && OccursAt(s, t, i);
      assert i != 0;
      OccursAtShift(s, t, i - 1);
    }
    if Occurs(s[1..], t) {
      var i :| 0 <= i <= |s| - 1 && OccursAt(s[1..], t, i);
      OccursAtShift(s, t, i);
    }
  }

  /**
   * Python's `s.replace(pat, repl)`: scan left to right, replacing each
   * occurrence of `pat` and resuming after it, so occurrences never overlap.
   */
  function Replace(s: string, pat: string, repl: string): string
    requires |pat| > 0
    decreases |s|
  {
    if |s| < |pat| then s
    else if s[..|pat|] == pat then repl + Replace(s[|pat|..], pat, repl)
    else
      [s[0]] + Replace(s[1..], pat, repl)
  }

  /** Python's `sep.join(parts)`. */
  function Join(parts: seq<string>, sep: string): string
  {
    if |parts| == 0 then ""
    else if |parts| == 1 then parts[0]
    else parts[0] + sep + Join(parts[1..], sep)
  }

  /**
   * Python's `s.split(sep)`: the pieces between the leftmost non-overlapping
   * occurrences of `sep`; no piece contains `sep`.
   */
  function Split(s: string, sep: string): (parts: seq<string>)
    requires |sep| > 0
    ensures |parts| >= 1
    ensures forall k :: 0 <= k < |parts| ==> !Occurs(parts[k], sep)
    decreases |s|
  {
    match Find(s, sep)
    case None => [s]
    case Some(i) =>
      assert !Occurs(s[..i], sep) by {
        if Occurs(s[..i], sep) {
          var j :| 0 <= j <= i && OccursAt(s[..i], sep, j);
          OccursAtPrefix(s, sep, i, j);
        }
      }
      [s[..i]] + Split(s[i + |sep|..], sep)
  }

  /**
   * The cuts of `Split` fall at the leftmost occurrences: there is one piece
   * exactly when `sep` does not occur, the first piece ends at the first
   * occurrence, and the other pieces split what follows it.
   */
  lemma {:induction false} SplitLeftmost(s: string, sep: string)
    requires |sep| > 0
    ensures |Split(s, sep)| == 1 <==> Find(s, sep).None?
    ensures |Split(s, sep)| > 1 ==> Find(s, sep) == Some(|Split(s, sep)[0]|)
    ensures |Split(s, sep)| > 1 ==>
      |Split(s, sep)[0]| + |sep| <= |s| &&
      Split(s, sep)[1..] == Split(s[|Split(s, sep)[0]| + |sep|..], sep)
  {
    var parts := Split(s, sep);
    match Find(s, sep)
    case None =>
      assert parts == [s];
    case Some(i) =>
      var tail := Split(s[i + |sep|..], sep);
      assert parts == [s[..i]] + tail;
      assert parts[0] == s[..i];
      assert parts[1..] == tail;
  }

  /** Number of occurrences `Replace` rewrites: Python's `s.count(t)`. */
  function Count(s: string, t: string): nat
    requires |t| > 0
  {
    |Split(s, t)| - 1
  }

  /** Splitting on `sep` and joining with `sep` gives the string back. */
  lemma {:induction false} JoinSplit(s: string, sep: string)
    requires |sep| > 0
    ensures Join(Split(s, sep), sep) == s
    decreases |s|
  {
    var parts := Split(s, sep);
    match Find(s, sep)
    case None =>
      assert parts == [s];
    case Some(i) =>
      var rest := s[i + |sep|..];
      JoinSplit(rest, sep);
      var tail := Split(rest, sep);
      assert parts == [s[..i]] + tail;
      assert parts[1..] == tail;
      assert Join(parts, sep) == s[..i] + sep + Join(tail, sep);
      assert s[i..i + |sep|] == sep;
      assert s == s[..i] + s[i..i + |sep|] + rest;
  }

  /** Text that does not contain the token comes back unchanged. */
  lemma {:induction false} ReplaceWithoutOccurrence(s: string, pat: string, repl: string)
    requires |pat| > 0 && !Occurs(s, pat)
    ensures Replace(s, pat, repl) == s
    decreases |s|
  {
    if |s| >= |pat| {
      assert !OccursAt(s, pat, 0);
      forall i | 0 <= i <= |s| - 1
        ensures !OccursAt(s[1..], pat, i)
      {
        OccursAtShift(s, pat, i);
      }
      ReplaceWithoutOccurrence(s[1..], pat, repl);
      assert s == [s[0]] + s[1..];
    }
  }

  /** One step of the scan when `pat` does not start `s`. */
  lemma ReplaceSkip(s: string, pat: string, repl: string)
    requires |pat| > 0 && |s| > 0 && !OccursAt(s, pat, 0)
    ensures Replace(s, pat, repl) == [s[0]] + Replace(s[1..], pat, repl)
  {
  }

  /** A leftmost occurrence at `i > 0` is a leftmost occurrence at `i - 1` in `s[1..]`. */
  lemma FirstOccurrenceShift(s: string, pat: string, i: nat)
    requires 0 < i && OccursAt(s, pat, i)
    requires forall j :: 0 <= j < i ==> !OccursAt(s, pat, j)
    ensures OccursAt(s[1..], pat, i - 1)
    ensures forall j :: 0 <= j < i - 1 ==> !OccursAt(s[1..], pat, j)
  {
    forall j | 0 <= j < i - 1
      ensures !OccursAt(s[1..], pat, j)
    {
      OccursAtShift(s, pat, j);
    }
    OccursAtShift(s, pat, i - 1);
  }

  /**
   * Putting back the first character of `s` in front of a result for
   * `s[1..]` that keeps `s[1..][..i - 1]` and then continues with `y`.
   */
  lemma ConsPrefix(s: string, i: nat, mid: string, whole: string, tailResult: string, y: string)
    requires 0 < i <= |s|
    requires whole == [s[0]] + tailResult
    requires tailResult == s[1..][..i - 1] + mid + y
    ensures whole == s[..i] + mid + y
  {
    assert [s[0]] + s[1..][..i - 1] == s[..i];
  }

  /** When the leftmost occurrence of `pat` is at `i`, everything before it is kept verbatim. */
  lemma {:induction false} ReplaceAtFirst(s: string, pat: string, repl: string, i: nat)
    requires |pat| > 0
    requires OccursAt(s, pat, i)
    requires forall j :: 0 <= j < i ==> !OccursAt(s, pat, j)
    ensures Replace(s, pat, repl) == s[..i] + repl + Replace(s[i + |pat|..], pat, repl)
    decreases i, 1
  {
    if i == 0 {
      assert s[..|pat|] == pat;
      assert s[..i] + repl == repl;
    } else {
      ReplaceAtLater(s, pat, repl, i);
    }
  }

  /** The inductive step of `ReplaceAtFirst`: the first character is not the start of an occurrence. */
  lemma {:induction false} ReplaceAtLater(s: string, pat: string, repl: string, i: nat)
    requires |pat| > 0 && i > 0
    requires OccursAt(s, pat, i)
    requires forall j :: 0 <= j < i ==> !OccursAt(s, pat, j)
    ensures Replace(s, pat, repl) == s[..i] + repl + Replace(s[i + |pat|..], pat, repl)
    decreases i, 0
  {
    var tail := s[1..];
    ReplaceSkip(s, pat, repl);
    FirstOccurrenceShift(s, pat, i);
    ReplaceAtFirst(tail, pat, repl, i - 1);
    assert tail[i - 1 + |pat|..] == s[i + |pat|..];
    ConsPrefix(s, i, repl, Replace(s, pat, repl), Replace(tail, pat, repl), Replace(s[i + |pat|..], pat, repl));
  }

  /**
   * The scanning `Replace` agrees with an independent definition, the
   * identity `s.replace(pat, repl) == repl.join(s.split(pat))` for a
   * non-empty `pat`.
   */
  lemma {:induction false} ReplaceIsJoinOfSplit(s: string, pat: string, repl: string)
    requires |pat| > 0
    ensures Replace(s, pat, repl) == Join(Split(s, pat), repl)
    decreases |s|
  {
    match Find(s, pat)
    case None =>
      ReplaceWithoutOccurrence(s, pat, repl);
    case Some(i) =>
      var rest := s[i + |pat|..];
      ReplaceAtFirst(s, pat, repl, i);
      ReplaceIsJoinOfSplit(rest, pat, repl);
      assert Split(s, pat) == [s[..i]] + Split(rest, pat);
  }

  /** Replacing a token by itself changes nothing. */
  lemma ReplaceSelf(s: string, t: string)
    requires |t| > 0
    ensures Replace(s, t, t) == s
  {
    ReplaceIsJoinOfSplit(s, t, t);
    JoinSplit(s, t);
  }

  /** Total length of a list of strings. */
  function TotalLength(parts: seq<string>): nat
  {
    if |parts| == 0 then 0 else |parts[0]| + TotalLength(parts[1..])
  }

  /** Joining `n` parts inserts the separator exactly `n - 1` times. */
  lemma {:induction false} JoinLength(parts: seq<string>, sep: string)
    requires |parts| >= 1
    ensures |Join(parts, sep)| == TotalLength(parts) + (|parts| - 1) * |sep|
  {
    if |parts| > 1 {
      JoinLength(parts[1..], sep);
    }
  }

  /** The same parts joined with two separators differ in length by one separator difference per gap. */
  lemma JoinsLength(parts: seq<string>, a: string, b: string)
    requires |parts| >= 1
    ensures |Join(parts, b)| + (|parts| - 1) * |a| == |Join(parts, a)| + (|parts| - 1) * |b|
  {
    JoinLength(parts, a);
    JoinLength(parts, b);
  }

  /**
   * Every counted occurrence is rewritten: the length changes by
   * `|repl| - |pat|` once per occurrence.
   */
  lemma ReplaceLength(s: string, pat: string, repl: string)
    requires |pat| > 0
    ensures |Replace(s, pat, repl)| + Count(s, pat) * |pat| == |s| + Count(s, pat) * |repl|
  {
    ReplaceIsJoinOfSplit(s, pat, repl);
    JoinSplit(s, pat);
    JoinsLength(Split(s, pat), pat, repl);
  }
}
