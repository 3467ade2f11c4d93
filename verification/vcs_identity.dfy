/**
 * The version-control identity lookups `get_git_info` and `get_hg_info`.
 * Running `git config --get user.<field>` or `hg config ui.username` is
 * outside the model: each lookup receives the process's decoded standard
 * output, or `None` when the process failed or could not be started (the
 * `CalledProcessError` / `FileNotFoundError` the code catches).
 */
module VcsIdentity {
  import opened Wrappers
  import opened PyStr
  import opened PyWords

  /** The `name` argument of `get_hg_info`. */
  datatype Field = NameField | EmailField | WholeField

  /** Last element of a non-empty list (Python's `xs[-1]`). */
  function Last<T>(xs: seq<T>): T
    requires |xs| > 0
  {
    xs[|xs| - 1]
  }

  /** Everything but the last element; Python's `xs[:-1]`, which is `[]` on `[]`. */
  function DropLast<T>(xs: seq<T>): seq<T>
  {
    if |xs| == 0 then [] else xs[..|xs| - 1]
  }

  /** `get_git_info`: the stripped output of `git config`, or `None` if it failed. */
  function GitInfo(stdout: Option<string>): (r: Option<string>)
    ensures r.Some? <==> stdout.Some?
    ensures r.Some? ==> TrimmedFrom(stdout.value, r.value)
    ensures r.Some? && |r.value| > 0 ==> !IsAsciiSpace(r.value[0]) && !IsAsciiSpace(r.value[|r.value| - 1])
  {
    match stdout
    case None => None
    case Some(out) => Some(Strip(out))
  }

  /**
   * The name projection of `hg config ui.username`: every word of the output
   * but the last, joined by single spaces.
   */
  function HgName(stdout: string): (r: string)
    ensures r == Join(DropLast(Words(stdout)), " ")
    ensures |Words(stdout)| <= 1 ==> r == ""
    ensures Words(r) == DropLast(Words(stdout))
  {
    var kept := DropLast(Words(Strip(stdout)));
    WordsOfStrip(stdout);
    JoinDropLast(Words(stdout));
    Join(kept, " ")
  }

  /** All words but the last, joined by single spaces, split back into themselves. */
  lemma JoinDropLast(ws: seq<string>)
    requires forall k :: 0 <= k < |ws| ==> IsWord(ws[k])
    ensures Words(Join(DropLast(ws), " ")) == DropLast(ws)
    ensures |ws| <= 1 ==> Join(DropLast(ws), " ") == ""
  {
    var kept := DropLast(ws);
    assert forall k :: 0 <= k < |kept| ==> kept[k] == ws[k];
    WordsOfJoin(kept);
  }

  /**
   * The address inside one word: one leading `<` and one trailing `>` are
   * removed. `None` stands for the `IndexError` of indexing an empty string:
   * the word itself, or what is left of exactly `<`.
   */
  function TrimAngles(w: string): (r: Option<string>)
    ensures r.None? <==> |w| == 0 || w == "<"
    ensures r.Some? ==> w == (if w[0] == '<' then "<" else "") + r.value + (if w[|w| - 1] == '>' then ">" else "")
    ensures r.Some? ==> Occurs(w, r.value) && |r.value| + 2 >= |w|
    ensures r.Some? && w[0] != '<' && w[|w| - 1] != '>' ==> r.value == w
  {
    if |w| == 0 then None
    else
      var unopened := if w[0] == '<' then w[1..] else w;
      if |unopened| == 0 then None
      else
        var email := if unopened[|unopened| - 1] == '>' then unopened[..|unopened| - 1] else unopened;
        TrimAnglesShape(w, unopened, email);
        TrimAnglesOccurs(w, unopened, email);
        Some(email)
  }

  /** Proof step: the word is the optional `<`, the trimmed result and the optional `>`. */
  lemma TrimAnglesShape(w: string, unopened: string, email: string)
    requires |w| > 0 && unopened == (if w[0] == '<' then w[1..] else w)
    requires |unopened| > 0
    requires email == (if unopened[|unopened| - 1] == '>' then unopened[..|unopened| - 1] else unopened)
    ensures w == (if w[0] == '<' then "<" else "") + email + (if w[|w| - 1] == '>' then ">" else "")
  {
    assert unopened[|unopened| - 1] == w[|w| - 1];
    assert unopened == email + (if w[|w| - 1] == '>' then ">" else "");
    if w[0] == '<' {
      assert w == "<" + unopened;
    }
  }

  /** Proof step: the trimmed result is a piece of the word. */
  lemma TrimAnglesOccurs(w: string, unopened: string, email: string)
    requires |w| > 0 && unopened == (if w[0] == '<' then w[1..] else w)
    requires |unopened| > 0
    requires email == (if unopened[|unopened| - 1] == '>' then unopened[..|unopened| - 1] else unopened)
    ensures Occurs(w, email)
  {
    var i := if w[0] == '<' then 1 else 0;
    assert OccursAt(w, unopened, i);
    assert OccursAt(unopened, email, 0);
    OccursAtTransitive(w, unopened, email, i, 0);
  }

  /** A piece of a word holds no whitespace either. */
  lemma OccursNoSpace(w: string, v: string)
    requires NoSpace(w) && Occurs(w, v)
    ensures NoSpace(v)
  {
    var i :| 0 <= i <= |w| && OccursAt(w, v, i);
    forall k | 0 <= k < |v|
      ensures !IsSpace(v[k])
    {
      assert v[k] == w[i + k];
    }
  }

  /**
   * The email projection: the last word of the output with one leading `<`
   * and one trailing `>` removed. Indexing an empty word list, or the empty
   * string left over from a last word of exactly `<`, raises `IndexError`,
   * which `get_hg_info` does not catch.
   */
  function HgEmail(stdout: string): (r: Result<string, PyError>)
    ensures r.Failure? <==> |Words(stdout)| == 0 || Last(Words(stdout)) == "<"
    ensures r.Failure? ==> r.error == IndexError
    ensures r.Success? ==>
              var w := Last(Words(stdout));
              w == (if w[0] == '<' then "<" else "") + r.value + (if w[|w| - 1] == '>' then ">" else "")
    ensures r.Success? ==> NoSpace(r.value) && Occurs(Last(Words(stdout)), r.value)
    ensures r.Success? ==> |r.value| + 2 >= |Last(Words(stdout))|
    ensures r.Success? ==>
              var w := Last(Words(stdout));
              w[0] != '<' && w[|w| - 1] != '>' ==> r.value == w
  {
    var words := Words(Strip(stdout));
    WordsOfStrip(stdout);
    if |words| == 0 then Failure(IndexError)
    else
      var w := Last(words);
      assert IsWord(w);
      match TrimAngles(w)
      case None => Failure(IndexError)
      case Some(email) =>
        OccursNoSpace(w, email);
        Success(email)
  }

  /** An occurrence of `u` inside an occurrence of `v` inside `w` is an occurrence in `w`. */
  lemma OccursAtTransitive(w: string, v: string, u: string, i: int, j: int)
    requires OccursAt(w, v, i) && OccursAt(v, u, j)
    ensures OccursAt(w, u, i + j)
  {
    forall k | 0 <= k < |u|
      ensures w[i + j + k] == u[k]
    {
      assert u[k] == v[j + k];
      assert v[j + k] == w[i + j + k];
    }
    assert w[i + j..i + j + |u|] == u;
  }

  /** The fall-through projection, a branch the program never takes: the words of the output joined by single spaces. */
  function HgWhole(stdout: string): (r: string)
    ensures r == Join(Words(stdout), " ")
    ensures Words(r) == Words(stdout)
  {
    var words := Words(Strip(stdout));
    WordsOfStrip(stdout);
    WordsOfJoin(words);
    Join(words, " ")
  }

  /** Collapsing whitespace twice is the same as once. */
  lemma HgWholeIdempotent(stdout: string)
    ensures HgWhole(HgWhole(stdout)) == HgWhole(stdout)
  {
    WordsOfJoin(Words(stdout));
  }

  /**
   * `get_hg_info(name)`: `Success(None)` when `hg` failed, otherwise the
   * requested projection of its output, or the `IndexError` it raises.
   */
  function HgInfo(field: Field, stdout: Option<string>): (r: Result<Option<string>, PyError>)
    ensures stdout.None? ==> r == Success(None)
    ensures r.Failure? <==> field == EmailField && stdout.Some? && HgEmail(stdout.value).Failure?
    ensures r.Failure? ==> r.error == IndexError
    ensures stdout.Some? && field == NameField ==> r == Success(Some(HgName(stdout.value)))
    ensures stdout.Some? && field == WholeField ==> r == Success(Some(HgWhole(stdout.value)))
    ensures stdout.Some? && field == EmailField && r.Success? ==> r == Success(Some(HgEmail(stdout.value).value))
  {
    match stdout
    case None => Success(None)
    case Some(out) =>
      match field
      case NameField => Success(Some(HgName(out)))
      case EmailField =>
        var e :- HgEmail(out);
        Success(Some(e))
      case WholeField => Success(Some(HgWhole(out)))
  }

  /** The `ui.username` line `First Last <email>` built from its parts. */
  function Username(names: seq<string>, email: string): string
  {
    Join(names + ["<" + email + ">"], " ")
  }

  /** The words of a well-formed username are its name words and the quoted address. */
  lemma UsernameWords(names: seq<string>, email: string)
    requires forall k :: 0 <= k < |names| ==> IsWord(names[k])
    requires NoSpace(email)
    ensures Words(Strip(Username(names, email))) == names + ["<" + email + ">"]
    ensures Words(Username(names, email)) == names + ["<" + email + ">"]
  {
    var quoted := "<" + email + ">";
    var ws := names + [quoted];
    assert IsWord(quoted) by {
      forall i | 0 <= i < |quoted|
        ensures !IsSpace(quoted[i])
      {
        if 0 < i < |quoted| - 1 {
          assert quoted[i] == email[i - 1];
        }
      }
    }
    assert forall k :: 0 <= k < |ws| ==> IsWord(ws[k]);
    WordsOfJoin(ws);
    WordsOfStrip(Username(names, email));
  }

  /**
   * For a configured `ui.username` of the form `First Last <email>`, the name
   * projection gives back the name words joined by single spaces.
   */
  lemma HgNameRoundTrip(names: seq<string>, email: string)
    requires forall k :: 0 <= k < |names| ==> IsWord(names[k])
    requires NoSpace(email)
    ensures HgName(Username(names, email)) == Join(names, " ")
  {
    UsernameWords(names, email);
    assert DropLast(names + ["<" + email + ">"]) == names;
  }

  /** ... and the email projection gives back the bare address. */
  lemma HgEmailRoundTrip(names: seq<string>, email: string)
    requires forall k :: 0 <= k < |names| ==> IsWord(names[k])
    requires NoSpace(email)
    ensures HgEmail(Username(names, email)) == Success(email)
  {
    UsernameWords(names, email);
    var quoted := "<" + email + ">";
    assert Last(names + [quoted]) == quoted;
    assert quoted[0] == '<';
    AngleSlices(email);
  }

  /** Proof step: slicing the angle brackets off `<e>`. */
  lemma AngleSlices(e: string)
    ensures ("<" + e + ">")[1..] == e + ">"
    ensures (e + ">")[..|e|] == e
  {
  }

  /** The usual configuration, worked through: `First Last <a@b>`. */
  lemma HgUsernameExample()
    ensures HgName("First Last <a@b>") == "First Last"
    ensures HgEmail("First Last <a@b>") == Success("a@b")
  {
    var names := ["First", "Last"];
    ExampleUsernameText();
    assert IsWord("First") && IsWord("Last") && NoSpace("a@b");
    HgNameRoundTrip(names, "a@b");
    HgEmailRoundTrip(names, "a@b");
  }

  /** Proof step: the example username and name, spelled out. */
  lemma ExampleUsernameText()
    ensures Username(["First", "Last"], "a@b") == "First Last <a@b>"
    ensures Join(["First", "Last"], " ") == "First Last"
  {
    assert "<" + "a@b" + ">" == "<a@b>";
    var ws := ["First", "Last", "<a@b>"];
    assert ["First", "Last"] + ["<a@b>"] == ws;
    assert ws[1..][1..] == ["<a@b>"];
    assert Join(ws[1..], " ") == "Last <a@b>";
    assert ["First", "Last"][1..] == ["Last"];
  }

  /** A one-word username leaves the name empty. */
  lemma HgNameSingleWord(w: string)
    requires IsWord(w)
    ensures HgName(w) == ""
  {
    WordsOfJoin([w]);
  }

  /** Empty output, and a last word of exactly `<`, make the email projection raise. */
  lemma HgEmailIndexErrors(names: seq<string>)
    requires forall k :: 0 <= k < |names| ==> IsWord(names[k])
    ensures HgEmail("") == Failure(IndexError)
    ensures HgEmail(Join(names + ["<"], " ")) == Failure(IndexError)
  {
    assert Words("") == [];
    LastWordOpen(names);
  }

  /** Proof step: a username ending in a lone `<` has `<` as its last word. */
  lemma LastWordOpen(names: seq<string>)
    requires forall k :: 0 <= k < |names| ==> IsWord(names[k])
    ensures var ws := Words(Join(names + ["<"], " "));
            |ws| > 0 && Last(ws) == "<"
  {
    assert IsWord("<");
    var ws := names + ["<"];
    assert forall k :: 0 <= k < |ws| ==> IsWord(ws[k]);
    WordsOfJoin(ws);
    assert Last(ws) == "<";
  }
}
