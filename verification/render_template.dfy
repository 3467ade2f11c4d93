/**
 * What rendering does to a license body, described segment by segment: a
 * body is plain text interleaved with bracketed placeholders, and as long as
 * the substituted values bring in no `[` of their own, rendering replaces each
 * of the four known placeholders by its value and leaves every other
 * segment, unknown placeholders included, exactly as it was.
 */
module RenderTemplate {
  import opened Wrappers
  import opened PyStr
  import opened Render

  /** A placeholder: `[`, then characters other than brackets, then `]`. */
  predicate BracketToken(t: string)
  {
    && |t| >= 2
    && t[0] == '['
    && t[|t| - 1] == ']'
    && forall k :: 1 <= k < |t| - 1 ==> t[k] != '[' && t[k] != ']'
  }

  lemma KnownTokensAreBracketTokens()
    ensures BracketToken(YearToken) && BracketToken(FullnameToken)
    ensures BracketToken(EmailToken) && BracketToken(ProjectnameToken)
  {
  }

  /** A piece of a license body: literal text, or a bracketed placeholder. */
  datatype Segment = Lit(text: string) | Tok(token: string)

  /** Literal pieces hold no `[`, and placeholders are well bracketed. */
  predicate WellFormed(segs: seq<Segment>)
  {
    forall k :: 0 <= k < |segs| ==>
      match segs[k]
      case Lit(s) => '[' !in s
      case Tok(t) => BracketToken(t)
  }

  function Piece(g: Segment): string
  {
    match g
    case Lit(s) => s
    case Tok(t) => t
  }

  /** The text the segments spell out. */
  function Flatten(segs: seq<Segment>): string
  {
    if |segs| == 0 then "" else Piece(segs[0]) + Flatten(segs[1..])
  }

  /** One pass on segments: the placeholder `pat` becomes the literal `repl`. */
  function Substitute(segs: seq<Segment>, pat: string, repl: string): (r: seq<Segment>)
    ensures |r| == |segs|
    ensures forall k :: 0 <= k < |segs| ==> r[k] == if segs[k] == Tok(pat) then Lit(repl) else segs[k]
  {
    if |segs| == 0 then []
    else [if segs[0] == Tok(pat) then Lit(repl) else segs[0]] + Substitute(segs[1..], pat, repl)
  }

  /**
   * All four passes on segments: each known placeholder becomes its value,
   * literals and unknown placeholders stay.
   */
  function Fill(segs: seq<Segment>, year: string, name: string, email: string, projectname: string): (r: seq<Segment>)
    ensures |r| == |segs|
    ensures forall k :: 0 <= k < |segs| ==>
              r[k] == match segs[k]
                      case Tok(t) =>
                        if t == YearToken then Lit(year)
                        else if t == FullnameToken then Lit(name)
                        else if t == EmailToken then Lit(email)
                        else if t == ProjectnameToken then Lit(projectname)
                        else segs[k]
                      case Lit(_) => segs[k]
  {
    Substitute(Substitute(Substitute(Substitute(segs, YearToken, year), FullnameToken, name),
                          EmailToken, email), ProjectnameToken, projectname)
  }

  /** Text without `[` is copied verbatim ahead of whatever follows it. */
  lemma {:induction false} ReplaceFreePrefix(a: string, x: string, pat: string, repl: string)
    requires |pat| > 0 && pat[0] == '['
    requires '[' !in a
    ensures Replace(a + x, pat, repl) == a + Replace(x, pat, repl)
    decreases |a|
  {
    if |a| > 0 {
      var s := a + x;
      if |s| < |pat| {
        assert Replace(x, pat, repl) == x;
      } else {
        assert s[0] == a[0] != pat[0];
        assert s[1..] == a[1..] + x;
        ReplaceFreePrefix(a[1..], x, pat, repl);
      }
    } else {
      assert a + x == x;
    }
  }

  /** A text starting with one placeholder does not start with a different one. */
  lemma TokenPrefixDiffers(t: string, x: string, pat: string)
    requires BracketToken(t) && BracketToken(pat) && t != pat
    requires |t + x| >= |pat|
    ensures (t + x)[..|pat|] != pat
  {
    var s := t + x;
    if |pat| < |t| {
      assert s[..|pat|][|pat| - 1] == t[|pat| - 1] != ']';
    } else if |pat| == |t| {
      assert s[..|pat|] == t;
    } else {
      assert s[..|pat|][|t| - 1] == ']';
      assert pat[|t| - 1] != ']';
    }
  }

  /** A placeholder that is not `pat` is copied verbatim ahead of whatever follows it. */
  lemma ReplaceOtherToken(t: string, x: string, pat: string, repl: string)
    requires BracketToken(t) && BracketToken(pat) && t != pat
    ensures Replace(t + x, pat, repl) == t + Replace(x, pat, repl)
  {
    if |t + x| < |pat| {
      ReplaceShort(t + x, pat, repl);
      ReplaceShort(x, pat, repl);
    } else {
      TokenPrefixDiffers(t, x, pat);
      ReplaceSkip(t + x, pat, repl);
      assert (t + x)[1..] == t[1..] + x;
      assert '[' !in t[1..];
      ReplaceFreePrefix(t[1..], x, pat, repl);
      ConsRest(t, Replace(x, pat, repl));
    }
  }

  /** Text shorter than the token is left alone. */
  lemma ReplaceShort(s: string, pat: string, repl: string)
    requires |pat| > |s|
    ensures Replace(s, pat, repl) == s
  {
  }

  /** Proof step: the first character of `t`, then the rest of `t`, then `rest`. */
  lemma ConsRest(t: string, rest: string)
    requires |t| > 0
    ensures [t[0]] + (t[1..] + rest) == t + rest
  {
    assert [t[0]] + t[1..] == t;
  }

  /** The placeholder `pat` itself is rewritten. */
  lemma ReplaceThisToken(pat: string, x: string, repl: string)
    requires |pat| > 0
    ensures Replace(pat + x, pat, repl) == repl + Replace(x, pat, repl)
  {
    var s := pat + x;
    assert s[..|pat|] == pat;
    assert s[|pat|..] == x;
  }

  /** One `str.replace` pass over a well-formed body acts segment by segment. */
  lemma {:induction false} ReplaceSegments(segs: seq<Segment>, pat: string, repl: string)
    requires WellFormed(segs) && BracketToken(pat)
    ensures Replace(Flatten(segs), pat, repl) == Flatten(Substitute(segs, pat, repl))
  {
    if |segs| > 0 {
      var g, rest := segs[0], segs[1..];
      assert WellFormed(rest) by {
        forall k | 0 <= k < |rest|
          ensures match rest[k] case Lit(s) => '[' !in s case Tok(t) => BracketToken(t)
        {
          assert rest[k] == segs[k + 1];
        }
      }
      ReplaceSegments(rest, pat, repl);
      var tail := Flatten(rest);
      assert Substitute(segs, pat, repl)[1..] == Substitute(rest, pat, repl);
      match g
      case Lit(s) =>
        assert segs[0] == g;
        ReplaceFreePrefix(s, tail, pat, repl);
      case Tok(t) =>
        assert segs[0] == g;
        if t == pat {
          ReplaceThisToken(pat, tail, repl);
        } else {
          ReplaceOtherToken(t, tail, pat, repl);
        }
    }
  }

  /** A pass whose value holds no `[` leaves the body well formed. */
  lemma SubstituteWellFormed(segs: seq<Segment>, pat: string, repl: string)
    requires WellFormed(segs) && '[' !in repl
    ensures WellFormed(Substitute(segs, pat, repl))
  {
    var r := Substitute(segs, pat, repl);
    forall k | 0 <= k < |r|
      ensures match r[k] case Lit(s) => '[' !in s case Tok(t) => BracketToken(t)
    {
      assert segs[k] == segs[k];
    }
  }

  /**
   * Rendering a well-formed body whose year, name and email values bring in
   * no `[` fills each known placeholder with its value and keeps everything
   * else. The project name may be anything: its pass comes last.
   */
  lemma RenderFillsPlaceholders(segs: seq<Segment>, year: string, fullname: Option<string>, email: Option<string>,
                                projectname: string, lookups: Lookups, name: string, emailText: string)
    requires WellFormed(segs)
    requires ResolveFullname(fullname, lookups) == Some(name)
    requires EmailText(email, lookups) == Success(emailText)
    requires '[' !in year && '[' !in name && '[' !in emailText
    ensures GenLicenseText(Flatten(segs), year, fullname, email, projectname, lookups)
            == Success(Flatten(Fill(segs, year, name, emailText, projectname)))
  {
    KnownTokensAreBracketTokens();
    var s1 := Substitute(segs, YearToken, year);
    var s2 := Substitute(s1, FullnameToken, name);
    var s3 := Substitute(s2, EmailToken, emailText);
    ReplaceSegments(segs, YearToken, year);
    SubstituteWellFormed(segs, YearToken, year);
    ReplaceSegments(s1, FullnameToken, name);
    SubstituteWellFormed(s1, FullnameToken, name);
    ReplaceSegments(s2, EmailToken, emailText);
    SubstituteWellFormed(s2, EmailToken, emailText);
    ReplaceSegments(s3, ProjectnameToken, projectname);
  }

  /** Flattening a body is flattening its first segment and the rest. */
  lemma FlattenCons(g: Segment, rest: seq<Segment>)
    ensures Flatten([g] + rest) == Piece(g) + Flatten(rest)
  {
    assert ([g] + rest)[1..] == rest;
  }

  /** Flattening distributes over concatenation of bodies. */
  lemma {:induction false} FlattenAppend(xs: seq<Segment>, ys: seq<Segment>)
    ensures Flatten(xs + ys) == Flatten(xs) + Flatten(ys)
  {
    if |xs| == 0 {
      assert xs + ys == ys;
    } else {
      FlattenAppend(xs[1..], ys);
      FlattenCons(xs[0], xs[1..] + ys);
      assert [xs[0]] + (xs[1..] + ys) == xs + ys;
      assert [xs[0]] + xs[1..] == xs;
      FlattenCons(xs[0], xs[1..]);
      ConsAssoc(Piece(xs[0]), Flatten(xs[1..]), Flatten(ys));
    }
  }

  /** Proof step: string concatenation regrouped. */
  lemma ConsAssoc(p: string, a: string, b: string)
    ensures p + (a + b) == (p + a) + b
  {
  }

  /** Proof step: spelling out a three-segment body. */
  lemma FlattenThree(a: Segment, b: Segment, c: Segment)
    ensures Flatten([a, b, c]) == Piece(a) + Piece(b) + Piece(c)
  {
    FlattenCons(c, []);
    FlattenCons(b, [c]);
    FlattenCons(a, [b, c]);
    assert [a] + [b, c] == [a, b, c];
    assert [b] + [c] == [b, c];
    assert [c] + [] == [c];
  }

  /** Spelling out a six-segment body. */
  lemma FlattenSix(a: Segment, b: Segment, c: Segment, d: Segment, e: Segment, f: Segment)
    ensures Flatten([a, b, c, d, e, f]) == Piece(a) + Piece(b) + Piece(c) + Piece(d) + Piece(e) + Piece(f)
  {
    assert [a, b, c, d, e, f] == [a, b, c] + [d, e, f];
    FlattenAppend([a, b, c], [d, e, f]);
    FlattenThree(a, b, c);
    FlattenThree(d, e, f);
  }

  /** The copyright line every catalog body starts with, as segments. */
  function CopyrightLine(): seq<Segment>
  {
    [Lit("Copyright "), Tok(YearToken), Lit(" "), Tok(FullnameToken), Tok(EmailToken), Lit(".")]
  }

  /** The example copyright line is a well-formed body. */
  lemma CopyrightLineWellFormed()
    ensures WellFormed(CopyrightLine())
  {
    KnownTokensAreBracketTokens();
  }

  /** The example copyright line spells the license line `Copyright [year] [fullname][email].`. */
  lemma CopyrightLineText()
    ensures Flatten(CopyrightLine()) == "Copyright [year] [fullname][email]."
  {
    FlattenSix(Lit("Copyright "), Tok(YearToken), Lit(" "), Tok(FullnameToken), Tok(EmailToken), Lit("."));
    CopyrightTemplateString();
  }

  /** Proof step: the example line's literals and tokens concatenated. */
  lemma CopyrightTemplateString()
    ensures "Copyright " + YearToken + " " + FullnameToken + EmailToken + "." == "Copyright [year] [fullname][email]."
  {
    assert "Copyright " + "[year]" == "Copyright [year]";
    assert "Copyright [year]" + " " == "Copyright [year] ";
    assert "Copyright [year] " + "[fullname]" == "Copyright [year] [fullname]";
    assert "Copyright [year] [fullname]" + "[email]" == "Copyright [year] [fullname][email]";
  }

  /** The copyright line with its placeholders filled, for any email text. */
  lemma CopyrightLineFilled(email: string)
    ensures Flatten(Fill(CopyrightLine(), "2024", "Jane Doe", email, DefaultProjectname))
            == "Copyright " + "2024" + " " + "Jane Doe" + email + "."
  {
    var filled := Fill(CopyrightLine(), "2024", "Jane Doe", email, DefaultProjectname);
    assert filled == [Lit("Copyright "), Lit("2024"), Lit(" "), Lit("Jane Doe"), Lit(email), Lit(".")];
    FlattenSix(Lit("Copyright "), Lit("2024"), Lit(" "), Lit("Jane Doe"), Lit(email), Lit("."));
  }

  /** Proof step: the explicit address of the examples becomes ` <jane@x.org>`. */
  lemma ExampleEmailText(lookups: Lookups)
    ensures EmailText(Some("jane@x.org"), lookups) == Success(" <jane@x.org>")
  {
    assert "jane@x.org" != GitSentinel && "jane@x.org" != HgSentinel && "jane@x.org" != "None";
    assert " <" + "jane@x.org" + ">" == " <jane@x.org>";
  }

  /** The copyright line rendered with an explicit email address. */
  lemma CopyrightLineWithEmail(lookups: Lookups)
    ensures GenLicenseText("Copyright [year] [fullname][email].", "2024", Some("Jane Doe"), Some("jane@x.org"),
                           DefaultProjectname, lookups)
            == Success("Copyright 2024 Jane Doe <jane@x.org>.")
  {
    CopyrightLineWellFormed();
    CopyrightLineText();
    ExampleEmailText(lookups);
    ExampleValuesBracketFree();
    RenderFillsPlaceholders(CopyrightLine(), "2024", Some("Jane Doe"), Some("jane@x.org"), DefaultProjectname,
                            lookups, "Jane Doe", " <jane@x.org>");
    CopyrightLineFilled(" <jane@x.org>");
    CopyrightStrings();
  }

  /** The copyright line rendered without an email address: the token leaves no trace. */
  lemma CopyrightLineWithoutEmail(lookups: Lookups)
    ensures GenLicenseText("Copyright [year] [fullname][email].", "2024", Some("Jane Doe"), None,
                           DefaultProjectname, lookups)
            == Success("Copyright 2024 Jane Doe.")
  {
    CopyrightLineWellFormed();
    CopyrightLineText();
    ExampleValuesBracketFree();
    RenderFillsPlaceholders(CopyrightLine(), "2024", Some("Jane Doe"), None, DefaultProjectname, lookups,
                            "Jane Doe", "");
    CopyrightLineFilled("");
    CopyrightStrings();
  }

  /** Proof step: the example values bring in no `[`. */
  lemma ExampleValuesBracketFree()
    ensures '[' !in "2024" && '[' !in "Jane Doe" && '[' !in " <jane@x.org>" && '[' !in ""
  {
  }

  /** The rendered copyright lines, spelled out piece by piece. */
  lemma CopyrightStrings()
    ensures "Copyright " + "2024" + " " + "Jane Doe" + " <jane@x.org>" + "." == "Copyright 2024 Jane Doe <jane@x.org>."
    ensures "Copyright " + "2024" + " " + "Jane Doe" + "" + "." == "Copyright 2024 Jane Doe."
  {
    assert "Copyright " + "2024" == "Copyright 2024";
    assert "Copyright 2024" + " " == "Copyright 2024 ";
    assert "Copyright 2024 " + "Jane Doe" == "Copyright 2024 Jane Doe";
    assert "Copyright 2024 Jane Doe" + " <jane@x.org>" == "Copyright 2024 Jane Doe <jane@x.org>";
    assert "Copyright 2024 Jane Doe" + "" == "Copyright 2024 Jane Doe";
  }

  /**
   * Pass order matters: a year value that is itself the name placeholder is
   * rewritten by the later name pass.
   */
  lemma YearValueMeetsNamePass(lookups: Lookups)
    ensures GenLicenseText(YearToken, FullnameToken, Some("A"), None, DefaultProjectname, lookups) == Success("A")
  {
    assert ResolveFullname(Some("A"), lookups) == Some("A");
    assert EmailText(None, lookups) == Success("");
    FourPasses(YearToken, FullnameToken, "A", "", DefaultProjectname);
    assert YearToken + "" == YearToken && FullnameToken + "" == FullnameToken;
    ReplaceThisToken(YearToken, "", FullnameToken);
    assert Replace(YearToken, YearToken, FullnameToken) == FullnameToken;
    ReplaceThisToken(FullnameToken, "", "A");
    assert Replace(FullnameToken, FullnameToken, "A") == "A";
    assert Replace("A", EmailToken, "") == "A";
    assert Replace("A", ProjectnameToken, DefaultProjectname) == "A";
  }

  /** ... while a project name that is the year placeholder comes too late to be rewritten. */
  lemma ProjectnameValueSurvives(lookups: Lookups)
    ensures GenLicenseText(ProjectnameToken, "2024", Some("A"), None, YearToken, lookups) == Success(YearToken)
  {
    assert ResolveFullname(Some("A"), lookups) == Some("A");
    assert EmailText(None, lookups) == Success("");
    FourPasses(ProjectnameToken, "2024", "A", "", YearToken);
    KnownTokensAreBracketTokens();
    assert ProjectnameToken + "" == ProjectnameToken;
    ReplaceOtherToken(ProjectnameToken, "", YearToken, "2024");
    assert Replace(ProjectnameToken, YearToken, "2024") == ProjectnameToken;
    ReplaceOtherToken(ProjectnameToken, "", FullnameToken, "A");
    assert Replace(ProjectnameToken, FullnameToken, "A") == ProjectnameToken;
    ReplaceOtherToken(ProjectnameToken, "", EmailToken, "");
    assert Replace(ProjectnameToken, EmailToken, "") == ProjectnameToken;
    ReplaceThisToken(ProjectnameToken, "", YearToken);
    assert Replace(ProjectnameToken, ProjectnameToken, YearToken) == YearToken;
  }

  /**
   * Removing the `[email]` token can leave one behind: deleting an inner
   * occurrence joins the text around it into a new one.
   */
  lemma ResidualEmailToken()
    ensures Replace("[" + EmailToken + "email]", EmailToken, "") == EmailToken
  {
    var s := "[" + EmailToken + "email]";
    assert s[1] != EmailToken[1];
    assert s[..|EmailToken|] != EmailToken;
    assert s[1..] == EmailToken + "email]";
    ReplaceThisToken(EmailToken, "email]", "");
    assert Replace("email]", EmailToken, "") == "email]";
    assert "[" + "email]" == EmailToken;
  }
}
