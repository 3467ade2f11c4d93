/**
 * `gen_license_text`: fill the `[year]`, `[fullname]`, `[email]` and
 * `[projectname]` placeholders of a license body, in that order, each pass
 * being one Python `str.replace` over the whole text.
 */
module Render {
  import opened Wrappers
  import opened PyStr
  import opened PyWords
  import opened VcsIdentity

  const YearToken := "[year]"
  const FullnameToken := "[fullname]"
  const EmailToken := "[email]"
  const ProjectnameToken := "[projectname]"

  /** The `--projectname` default: the placeholder itself. */
  const DefaultProjectname := ProjectnameToken

  /** The email value that `--email git` / `--email hg` turn into a lookup. */
  const GitSentinel := "git"
  const HgSentinel := "hg"

  /**
   * The outputs the identity lookups would read, supplied by the caller instead
   * of running `git config --get user.email` and `hg config ui.username`; `None`
   * stands for a failed or missing tool. Both hg queries read the same output.
   */
  datatype Lookups = Lookups(gitEmailStdout: Option<string>, hgStdout: Option<string>)

  /** How an f-string prints an optional string: `None` prints as `"None"`. */
  function Format(v: Option<string>): string
  {
    match v
    case None => "None"
    case Some(s) => s
  }

  /** One substitution pass: every occurrence of `token` becomes `value`. */
  datatype Pass = Pass(token: string, value: string)

  predicate ValidPasses(ps: seq<Pass>)
  {
    forall k :: 0 <= k < |ps| ==> |ps[k].token| > 0
  }

  /** The passes run one after the other, each over the previous pass's output. */
  function ApplyPasses(text: string, ps: seq<Pass>): string
    requires ValidPasses(ps)
    decreases |ps|
  {
    if |ps| == 0 then text
    else ApplyPasses(Replace(text, ps[0].token, ps[0].value), ps[1..])
  }

  /** Running passes one list after another is running the concatenated list. */
  lemma {:induction false} ApplyPassesAppend(text: string, ps: seq<Pass>, qs: seq<Pass>)
    requires ValidPasses(ps) && ValidPasses(qs)
    ensures ValidPasses(ps + qs)
    ensures ApplyPasses(text, ps + qs) == ApplyPasses(ApplyPasses(text, ps), qs)
    decreases |ps|
  {
    if |ps| == 0 {
      assert ps + qs == qs;
    } else {
      assert (ps + qs)[1..] == ps[1..] + qs;
      ApplyPassesAppend(Replace(text, ps[0].token, ps[0].value), ps[1..], qs);
    }
  }

  /** A single pass is one `Replace`. */
  lemma ApplyOnePass(text: string, p: Pass)
    requires |p.token| > 0
    ensures ApplyPasses(text, [p]) == Replace(text, p.token, p.value)
  {
    assert [p][1..] == [];
  }

  /** Text in which none of the passes' tokens occurs goes through every pass unchanged. */
  lemma {:induction false} ApplyPassesUntouched(text: string, ps: seq<Pass>)
    requires ValidPasses(ps)
    requires forall k :: 0 <= k < |ps| ==> !Occurs(text, ps[k].token)
    ensures ApplyPasses(text, ps) == text
    decreases |ps|
  {
    if |ps| > 0 {
      ReplaceWithoutOccurrence(text, ps[0].token, ps[0].value);
      ApplyPassesUntouched(text, ps[1..]);
    }
  }

  /**
   * The name put in place of `[fullname]`: the `hg` sentinel reads the name
   * projection of `hg config ui.username` (all words but the last, joined by
   * single spaces), and any other value is used as is.
   * `None` (a failed git default, a failed hg lookup) makes the caller raise.
   */
  function ResolveFullname(fullname: Option<string>, lookups: Lookups): (r: Option<string>)
    ensures fullname != Some(HgSentinel) ==> r == fullname
    ensures fullname == Some(HgSentinel) ==> (r.Some? <==> lookups.hgStdout.Some?)
    ensures fullname == Some(HgSentinel) && lookups.hgStdout.Some? ==>
              r == Some(Join(DropLast(Words(lookups.hgStdout.value)), " "))
    ensures fullname == Some(HgSentinel) && r.Some? ==> Words(r.value) == DropLast(Words(lookups.hgStdout.value))
  {
    if fullname == Some(HgSentinel) then
      match lookups.hgStdout
      case None => None
      case Some(out) => Some(HgName(out))
    else fullname
  }

  /**
   * The text put in place of `[email]`: an address becomes ` <address>` (the
   * token sits right after `[fullname]`, so the space is part of the value);
   * `None` becomes the empty string; the sentinels `git` and `hg` read the
   * address from the tool, and a failed lookup prints as ` <None>`, which is
   * then collapsed to the empty string.
   */
  function EmailText(email: Option<string>, lookups: Lookups): (r: Result<string, PyError>)
    ensures email.None? ==> r == Success("")
    ensures email.Some? && email.value != GitSentinel && email.value != HgSentinel ==>
              r == Success(if email.value == "None" then "" else " <" + email.value + ">")
    ensures email == Some(GitSentinel) ==>
              r.Success? && (r.value == "" <==> GitInfo(lookups.gitEmailStdout) in {None, Some("None")})
    ensures email == Some(GitSentinel) && GitInfo(lookups.gitEmailStdout).Some?
            && GitInfo(lookups.gitEmailStdout).value != "None" ==>
              r == Success(" <" + GitInfo(lookups.gitEmailStdout).value + ">")
    ensures email == Some(HgSentinel) && lookups.hgStdout.None? ==> r == Success("")
    ensures email == Some(HgSentinel) && lookups.hgStdout.Some? && HgEmail(lookups.hgStdout.value).Success? ==>
              r == Success(if HgEmail(lookups.hgStdout.value).value == "None" then ""
                           else " <" + HgEmail(lookups.hgStdout.value).value + ">")
    ensures r.Failure? <==> email == Some(HgSentinel) && lookups.hgStdout.Some? && HgEmail(lookups.hgStdout.value).Failure?
    ensures r.Failure? ==> r.error == IndexError
    ensures r.Success? && r.value != "" ==>
              |r.value| >= 3 && r.value[..2] == " <" && r.value[|r.value| - 1] == '>' && r.value != " <None>"
  {
    match email
    case None => Success("")
    case Some(e) =>
      if e == GitSentinel then Success(Bracketed(GitInfo(lookups.gitEmailStdout)))
      else if e == HgSentinel then
        match HgInfo(EmailField, lookups.hgStdout)
        case Failure(err) => Failure(err)
        case Success(looked) => Success(Bracketed(looked))
      else Success(Bracketed(Some(e)))
  }

  /**
   * The f-string ` <{v}>` followed by the ` <None>` check: a looked-up or
   * given value is bracketed, and a value that prints as `None` is dropped.
   */
  function Bracketed(v: Option<string>): (r: string)
    ensures r == "" <==> v in {None, Some("None")}
    ensures r != "" ==> r == " <" + v.value + ">"
    ensures r != "" ==> |r| >= 3 && r[..2] == " <" && r[|r| - 1] == '>' && r != " <None>"
  {
    var b := " <" + Format(v) + ">";
    BracketedNone(Format(v));
    FormatNone(v);
    if b == " <None>" then "" else b
  }

  /** ` <v>` reads ` <None>` exactly when `v` is `None`. */
  lemma BracketedNone(v: string)
    ensures " <" + v + ">" == " <None>" <==> v == "None"
  {
    var b := " <" + v + ">";
    if b == " <None>" {
      assert v == b[2..|b| - 1];
    }
  }

  /** The printed form of an optional string is `None` exactly for `None` and `Some("None")`. */
  lemma FormatNone(v: Option<string>)
    ensures Format(v) == "None" <==> v in {None, Some("None")}
  {
  }

  /**
   * `gen_license_text(text, year, fullname, email, projectname)`. A `None`
   * name raises `TypeError` in the `[fullname]` pass, before the email is
   * looked at; an `IndexError` from the hg email lookup escapes as well.
   */
  function GenLicenseText(text: string, year: string, fullname: Option<string>, email: Option<string>,
                          projectname: string, lookups: Lookups): (r: Result<string, PyError>)
    ensures r.Failure? <==> ResolveFullname(fullname, lookups).None? || EmailText(email, lookups).Failure?
    ensures ResolveFullname(fullname, lookups).None? ==> r == Failure(TypeError)
    ensures ResolveFullname(fullname, lookups).Some? && EmailText(email, lookups).Failure? ==> r == Failure(IndexError)
    ensures r.Success? ==>
              r.value == ApplyPasses(text, [Pass(YearToken, year),
                                            Pass(FullnameToken, ResolveFullname(fullname, lookups).value),
                                            Pass(EmailToken, EmailText(email, lookups).value),
                                            Pass(ProjectnameToken, projectname)])
  {
    var afterYear := Replace(text, YearToken, year);
    var name := ResolveFullname(fullname, lookups);
    if name.None? then Failure(TypeError)
    else
      var afterName := Replace(afterYear, FullnameToken, name.value);
      var e :- EmailText(email, lookups);
      var afterEmail := Replace(afterName, EmailToken, e);
      FourPasses(text, year, name.value, e, projectname);
      Success(Replace(afterEmail, ProjectnameToken, projectname))
  }

  /** The four placeholder passes, in the order the program runs them. */
  lemma FourPasses(text: string, year: string, name: string, email: string, projectname: string)
    ensures ApplyPasses(text, [Pass(YearToken, year), Pass(FullnameToken, name),
                               Pass(EmailToken, email), Pass(ProjectnameToken, projectname)])
            == Replace(Replace(Replace(Replace(text, YearToken, year), FullnameToken, name),
                               EmailToken, email), ProjectnameToken, projectname)
  {
    var p1, p2, p3, p4 := Pass(YearToken, year), Pass(FullnameToken, name),
                          Pass(EmailToken, email), Pass(ProjectnameToken, projectname);
    assert [p1, p2, p3, p4] == [p1] + ([p2] + ([p3] + [p4]));
    ApplyPassesAppend(text, [p1], [p2] + ([p3] + [p4]));
    ApplyOnePass(text, p1);
    var t1 := Replace(text, YearToken, year);
    ApplyPassesAppend(t1, [p2], [p3] + [p4]);
    ApplyOnePass(t1, p2);
    var t2 := Replace(t1, FullnameToken, name);
    ApplyPassesAppend(t2, [p3], [p4]);
    ApplyOnePass(t2, p3);
    ApplyOnePass(Replace(t2, EmailToken, email), p4);
  }

  /** None of the four placeholders occurs in `text`. */
  predicate TokenFree(text: string)
  {
    && !Occurs(text, YearToken)
    && !Occurs(text, FullnameToken)
    && !Occurs(text, EmailToken)
    && !Occurs(text, ProjectnameToken)
  }

  /** A body without placeholders is returned unchanged whenever rendering succeeds. */
  lemma RenderWithoutTokens(text: string, year: string, fullname: Option<string>, email: Option<string>,
                            projectname: string, lookups: Lookups)
    requires TokenFree(text)
    requires GenLicenseText(text, year, fullname, email, projectname, lookups).Success?
    ensures GenLicenseText(text, year, fullname, email, projectname, lookups) == Success(text)
  {
    var ps := [Pass(YearToken, year),
               Pass(FullnameToken, ResolveFullname(fullname, lookups).value),
               Pass(EmailToken, EmailText(email, lookups).value),
               Pass(ProjectnameToken, projectname)];
    ApplyPassesUntouched(text, ps);
  }

  /** Rendering an already rendered, placeholder-free text again changes nothing. */
  lemma RenderIdempotent(text: string, year: string, fullname: Option<string>, email: Option<string>,
                         projectname: string, lookups: Lookups)
    requires GenLicenseText(text, year, fullname, email, projectname, lookups).Success?
    requires TokenFree(GenLicenseText(text, year, fullname, email, projectname, lookups).value)
    ensures var once := GenLicenseText(text, year, fullname, email, projectname, lookups).value;
            GenLicenseText(once, year, fullname, email, projectname, lookups) == Success(once)
  {
    var once := GenLicenseText(text, year, fullname, email, projectname, lookups).value;
    RenderWithoutTokens(once, year, fullname, email, projectname, lookups);
  }

  /**
   * The project-name pass runs last: the result is the text after the first
   * three passes with `[projectname]` replaced, so nothing rewrites the
   * project name afterwards.
   */
  lemma ProjectnamePassLast(text: string, year: string, fullname: Option<string>, email: Option<string>,
                            projectname: string, lookups: Lookups)
    requires GenLicenseText(text, year, fullname, email, projectname, lookups).Success?
    ensures GenLicenseText(text, year, fullname, email, projectname, lookups).value
            == Replace(ApplyPasses(text, [Pass(YearToken, year),
                                          Pass(FullnameToken, ResolveFullname(fullname, lookups).value),
                                          Pass(EmailToken, EmailText(email, lookups).value)]),
                       ProjectnameToken, projectname)
  {
    var name := ResolveFullname(fullname, lookups).value;
    var e := EmailText(email, lookups).value;
    var p1, p2, p3 := Pass(YearToken, year), Pass(FullnameToken, name), Pass(EmailToken, e);
    var p4 := Pass(ProjectnameToken, projectname);
    assert [p1, p2, p3, p4] == [p1, p2, p3] + [p4];
    ApplyPassesAppend(text, [p1, p2, p3], [p4]);
    ApplyOnePass(ApplyPasses(text, [p1, p2, p3]), p4);
  }

  /** With the default project name the last pass is the identity: `[projectname]` stays visible. */
  lemma DefaultProjectnameKeepsToken(text: string, year: string, fullname: Option<string>, email: Option<string>,
                                     lookups: Lookups)
    requires GenLicenseText(text, year, fullname, email, DefaultProjectname, lookups).Success?
    ensures GenLicenseText(text, year, fullname, email, DefaultProjectname, lookups).value
            == ApplyPasses(text, [Pass(YearToken, year),
                                  Pass(FullnameToken, ResolveFullname(fullname, lookups).value),
                                  Pass(EmailToken, EmailText(email, lookups).value)])
  {
    var name := ResolveFullname(fullname, lookups).value;
    var e := EmailText(email, lookups).value;
    var p1, p2, p3 := Pass(YearToken, year), Pass(FullnameToken, name), Pass(EmailToken, e);
    var p4 := Pass(ProjectnameToken, DefaultProjectname);
    assert [p1, p2, p3, p4] == [p1, p2, p3] + [p4];
    ApplyPassesAppend(text, [p1, p2, p3], [p4]);
    var afterEmail := ApplyPasses(text, [p1, p2, p3]);
    ApplyOnePass(afterEmail, p4);
    ReplaceSelf(afterEmail, ProjectnameToken);
  }
}
