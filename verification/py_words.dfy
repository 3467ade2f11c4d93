/**
 * Python's argument-less `str.split()` (split on runs of whitespace, dropping
 * empty pieces) and `bytes.strip()` (trim ASCII whitespace at both ends).
 */
module PyWords {
  import opened PyStr

  /** The characters `str.split()` separates on: those for which `str.isspace()` holds. */
  predicate IsSpace(c: char)
  {
    var n := c as int;
    || (0x09 <= n <= 0x0D)
    || (0x1C <= n <= 0x20)
    || n == 0x85 || n == 0xA0 || n == 0x1680
    || (0x2000 <= n <= 0x200A)
    || n == 0x2028 || n == 0x2029 || n == 0x202F || n == 0x205F || n == 0x3000
  }

  /** The bytes `bytes.strip()` removes: space, `\t`, `\n`, `\v`, `\f` and `\r`. */
  predicate IsAsciiSpace(c: char)
  {
    c == ' ' || ('\t' <= c <= '\r')
  }

  lemma AsciiSpaceIsSpace(c: char)
    requires IsAsciiSpace(c)
    ensures IsSpace(c)
  {
  }

  /** `s` holds no whitespace. */
  predicate NoSpace(s: string)
  {
    forall i :: 0 <= i < |s| ==> !IsSpace(s[i])
  }

  /** A piece `str.split()` can produce: non-empty and whitespace-free. */
  predicate IsWord(w: string)
  {
    |w| > 0 && NoSpace(w)
  }

  /** Length of the run of non-whitespace characters that starts `s`. */
  function WordLen(s: string): (n: nat)
    ensures n <= |s|
    ensures forall i :: 0 <= i < n ==> !IsSpace(s[i])
    ensures n < |s| ==> IsSpace(s[n])
  {
    if |s| == 0 || IsSpace(s[0]) then 0 else 1 + WordLen(s[1..])
  }

  /** The run length is determined by where the first whitespace character sits. */
  lemma {:induction false} WordLenUnique(s: string, n: nat)
    requires n <= |s|
    requires forall i :: 0 <= i < n ==> !IsSpace(s[i])
    requires n < |s| ==> IsSpace(s[n])
    ensures WordLen(s) == n
  {
    if n > 0 {
      WordLenUnique(s[1..], n - 1);
    }
  }

  /** Python's `s.split()`. */
  function Words(s: string): (ws: seq<string>)
    ensures forall k :: 0 <= k < |ws| ==> IsWord(ws[k])
    decreases |s|
  {
    if |s| == 0 then []
    else if IsSpace(s[0]) then Words(s[1..])
    else
      var n := WordLen(s);
      [s[..n]] + Words(s[n..])
  }

  /** Trailing whitespace does not change the words. */
  lemma {:induction false} WordsDropLast(s: string)
    requires |s| > 0 && IsSpace(s[|s| - 1])
    ensures Words(s[..|s| - 1]) == Words(s)
    decreases |s|
  {
    var s' := s[..|s| - 1];
    if |s| == 1 {
      assert Words(s) == Words(s[1..]);
    } else if IsSpace(s[0]) {
      assert s'[1..] == s[1..][..|s| - 2];
      WordsDropLast(s[1..]);
    } else {
      var n := WordLen(s);
      assert n < |s|;
      WordLenUnique(s', n);
      assert s'[..n] == s[..n];
      assert s'[n..] == s[n..][..|s| - n - 1];
      WordsDropLast(s[n..]);
    }
  }

  /** Whitespace on either side of a slice does not change the words. */
  lemma {:induction false} WordsOfSlice(s: string, a: nat, b: nat)
    requires a <= b <= |s|
    requires forall i :: 0 <= i < a ==> IsSpace(s[i])
    requires forall i :: b <= i < |s| ==> IsSpace(s[i])
    ensures Words(s[a..b]) == Words(s)
    decreases a + |s| - b
  {
    if b < |s| {
      var u := s[..|s| - 1];
      assert forall i :: 0 <= i < |u| ==> u[i] == s[i];
      WordsDropLast(s);
      WordsOfSlice(u, a, b);
      assert u[a..b] == s[a..b];
    } else if a > 0 {
      var t := s[1..];
      assert IsSpace(s[0]);
      assert Words(s) == Words(t);
      forall i | 0 <= i < a - 1
        ensures IsSpace(t[i])
      {
        assert t[i] == s[i + 1];
      }
      WordsOfSlice(t, a - 1, b - 1);
      assert t[a - 1..b - 1] == s[a..b];
    } else {
      assert s[a..b] == s;
    }
  }

  /**
   * Where `bytes.strip()` cuts: `s[start..end]` keeps everything between the
   * leading and the trailing ASCII whitespace.
   */
  function StripBounds(s: string): (ab: (nat, nat))
    ensures ab.0 <= ab.1 <= |s|
    ensures forall i :: 0 <= i < ab.0 ==> IsAsciiSpace(s[i])
    ensures forall i :: ab.1 <= i < |s| ==> IsAsciiSpace(s[i])
    ensures ab.0 < ab.1 ==> !IsAsciiSpace(s[ab.0]) && !IsAsciiSpace(s[ab.1 - 1])
    decreases |s|
  {
    if |s| == 0 then (0, 0)
    else if IsAsciiSpace(s[0]) then
      var ab := StripBounds(s[1..]);
      (ab.0 + 1, ab.1 + 1)
    else if IsAsciiSpace(s[|s| - 1]) then StripBounds(s[..|s| - 1])
    else (0, |s|)
  }

  /** `r` is `s` with nothing but ASCII whitespace cut from its two ends. */
  predicate TrimmedFrom(s: string, r: string)
  {
    exists a, b :: && 0 <= a <= b <= |s| && r == s[a..b]
                   && (forall i :: 0 <= i < a ==> IsAsciiSpace(s[i]))
                   && (forall i :: b <= i < |s| ==> IsAsciiSpace(s[i]))
  }

  /** Python's `s.strip()` on the bytes of a process's output. */
  function Strip(s: string): (r: string)
    ensures |r| > 0 ==> !IsAsciiSpace(r[0]) && !IsAsciiSpace(r[|r| - 1])
    ensures TrimmedFrom(s, r)
    ensures Occurs(s, r)
    ensures |s| > 0 && !IsAsciiSpace(s[0]) && !IsAsciiSpace(s[|s| - 1]) ==> r == s
  {
    var ab := StripBounds(s);
    assert OccursAt(s, s[ab.0..ab.1], ab.0);
    s[ab.0..ab.1]
  }

  /** Stripping before splitting is redundant: `s.strip().split() == s.split()`. */
  lemma WordsOfStrip(s: string)
    ensures Words(Strip(s)) == Words(s)
  {
    var ab := StripBounds(s);
    forall i | 0 <= i < ab.0
      ensures IsSpace(s[i])
    {
      AsciiSpaceIsSpace(s[i]);
    }
    forall i | ab.1 <= i < |s|
      ensures IsSpace(s[i])
    {
      AsciiSpaceIsSpace(s[i]);
    }
    WordsOfSlice(s, ab.0, ab.1);
  }

  /** A word, a space, then more text: the word is the first piece. */
  lemma WordsOfWordThenRest(w: string, rest: string)
    requires IsWord(w)
    ensures Words(w + " " + rest) == [w] + Words(rest)
  {
    var j := w + " " + rest;
    assert j[|w|] == ' ';
    WordLenUnique(j, |w|);
    assert j[..|w|] == w;
    assert j[|w|..] == " " + rest;
    WordsOfSpaceThenRest(rest);
  }

  lemma WordsOfSpaceThenRest(rest: string)
    ensures Words(" " + rest) == Words(rest)
  {
    assert (" " + rest)[1..] == rest;
  }

  /** Joining words with single spaces and splitting again gives the words back. */
  lemma {:induction false} WordsOfJoin(ws: seq<string>)
    requires forall k :: 0 <= k < |ws| ==> IsWord(ws[k])
    ensures Words(Join(ws, " ")) == ws
  {
    if |ws| == 1 {
      var w := ws[0];
      WordLenUnique(w, |w|);
      assert w[..|w|] == w;
      assert Words(w) == [w] + Words(w[|w|..]);
    } else if |ws| > 1 {
      WordsOfJoin(ws[1..]);
      WordsOfWordThenRest(ws[0], Join(ws[1..], " "));
      assert ws == [ws[0]] + ws[1..];
    }
  }

  /** Every character of `g` is whitespace. */
  predicate AllSpace(g: string)
  {
    forall i :: 0 <= i < |g| ==> IsSpace(g[i])
  }

  /**
   * Words laid out between whitespace runs: `gaps[0] ws[0] gaps[1] … ws[n-1] gaps[n]`.
   * Every string is such a layout of its words (`LayoutOfWords`), and a layout
   * splits back into exactly its words (`WordsOfLayout`).
   */
  function Layout(ws: seq<string>, gaps: seq<string>): string
    requires |gaps| == |ws| + 1
    decreases |ws|
  {
    if |ws| == 0 then gaps[0] else gaps[0] + ws[0] + Layout(ws[1..], gaps[1..])
  }

  /** Gaps that separate words: whitespace only, and non-empty between two words. */
  predicate Separating(gaps: seq<string>)
  {
    && (forall k :: 0 <= k < |gaps| ==> AllSpace(gaps[k]))
    && (forall k :: 0 < k < |gaps| - 1 ==> |gaps[k]| > 0)
  }

  /** The whitespace runs of `s`, one more than its words, the outer ones possibly empty. */
  function Gaps(s: string): (gaps: seq<string>)
    ensures |gaps| == |Words(s)| + 1
    ensures Separating(gaps)
    ensures |s| > 0 && IsSpace(s[0]) ==> |gaps[0]| > 0
    decreases |s|
  {
    if |s| == 0 then [""]
    else if IsSpace(s[0]) then
      var g := Gaps(s[1..]);
      [[s[0]] + g[0]] + g[1..]
    else
      var n := WordLen(s);
      [""] + Gaps(s[n..])
  }

  /** A whitespace-only string has no words. */
  lemma {:induction false} WordsOfSpace(g: string)
    requires AllSpace(g)
    ensures Words(g) == []
    decreases |g|
  {
    if |g| > 0 {
      WordsOfSpace(g[1..]);
    }
  }

  /** Leading whitespace adds no word. */
  lemma {:induction false} WordsAfterSpace(g: string, t: string)
    requires AllSpace(g)
    ensures Words(g + t) == Words(t)
    decreases |g|
  {
    if |g| > 0 {
      assert (g + t)[0] == g[0] && IsSpace(g[0]);
      assert (g + t)[1..] == g[1..] + t;
      assert Words(g + t) == Words((g + t)[1..]);
      WordsAfterSpace(g[1..], t);
    } else {
      assert g + t == t;
    }
  }

  /** A word followed by nothing or by whitespace is the first piece. */
  lemma WordsOfWordThen(w: string, rest: string)
    requires IsWord(w)
    requires |rest| == 0 || IsSpace(rest[0])
    ensures Words(w + rest) == [w] + Words(rest)
  {
    var j := w + rest;
    WordLenUnique(j, |w|);
    assert j[..|w|] == w;
    assert j[|w|..] == rest;
  }

  /** A layout of words between separating whitespace runs splits back into exactly those words. */
  lemma {:induction false} WordsOfLayout(ws: seq<string>, gaps: seq<string>)
    requires |gaps| == |ws| + 1
    requires forall k :: 0 <= k < |ws| ==> IsWord(ws[k])
    requires Separating(gaps)
    ensures Words(Layout(ws, gaps)) == ws
    decreases |ws|
  {
    if |ws| == 0 {
      WordsOfSpace(gaps[0]);
    } else {
      var rest := Layout(ws[1..], gaps[1..]);
      assert Separating(gaps[1..]);
      WordsOfLayout(ws[1..], gaps[1..]);
      if |ws| > 1 {
        assert |gaps[1]| > 0 && IsSpace(gaps[1][0]);
        assert rest[0] == gaps[1][0];
      } else {
        assert rest == gaps[1];
      }
      WordsOfWordThen(ws[0], rest);
      WordsAfterSpace(gaps[0], ws[0] + rest);
      assert Layout(ws, gaps) == gaps[0] + (ws[0] + rest);
      assert ws == [ws[0]] + ws[1..];
    }
  }

  /** Every string is its words laid out between its whitespace runs. */
  lemma {:induction false} LayoutOfWords(s: string)
    ensures Layout(Words(s), Gaps(s)) == s
    decreases |s|, 1
  {
    if |s| == 0 {
    } else if IsSpace(s[0]) {
      LayoutOfWordsSpace(s);
    } else {
      LayoutOfWordsWord(s);
    }
  }

  /** A leading whitespace character joins the first gap. */
  lemma {:induction false} LayoutOfWordsSpace(s: string)
    requires |s| > 0 && IsSpace(s[0])
    ensures Layout(Words(s), Gaps(s)) == s
    decreases |s|, 0
  {
    var g := Gaps(s[1..]);
    var ws := Words(s[1..]);
    LayoutOfWords(s[1..]);
    assert Words(s) == ws;
    assert Gaps(s) == [[s[0]] + g[0]] + g[1..];
    assert [s[0]] + s[1..] == s;
    if |ws| > 0 {
      LayoutCons(s[0], g[0], ws[0], Layout(ws[1..], g[1..]));
    }
  }

  /** A leading word is the first word, after an empty first gap. */
  lemma {:induction false} LayoutOfWordsWord(s: string)
    requires |s| > 0 && !IsSpace(s[0])
    ensures Layout(Words(s), Gaps(s)) == s
    decreases |s|, 0
  {
    var n := WordLen(s);
    LayoutOfWords(s[n..]);
    var ws := Words(s);
    assert ws == [s[..n]] + Words(s[n..]);
    assert Gaps(s) == [""] + Gaps(s[n..]);
    assert ws[1..] == Words(s[n..]);
    assert Gaps(s)[1..] == Gaps(s[n..]);
    LayoutWordFirst(s[..n], s[n..], Layout(ws[1..], Gaps(s)[1..]));
    assert s[..n] + s[n..] == s;
  }

  /** Proof step: an empty first gap adds nothing in front of the first word. */
  lemma LayoutWordFirst(w: string, t: string, rest: string)
    requires rest == t
    ensures "" + w + rest == w + t
  {
  }

  /** Proof step: a leading character regroups into the first gap. */
  lemma LayoutCons(c: char, g: string, w: string, rest: string)
    ensures ([c] + g) + w + rest == [c] + (g + w + rest)
  {
  }

}
