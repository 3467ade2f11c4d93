/**
 * `print_license_data`: the summary of one catalog license, as the ordered
 * list of lines it prints, with colours and markup removed. Loading the
 * TOML file is outside the model; a license arrives as a record, and
 * `textwrap.wrap` arrives as a parameter.
 */
module Summary {
  import opened Wrappers

  /** A TOML scalar the summary tests: a boolean or a string. */
  datatype Value = B(b: bool) | S(s: string)

  /** Python truthiness: `False` and `""` are false, everything else true. */
  predicate Truthy(v: Value)
  {
    match v
    case B(b) => b
    case S(s) => |s| > 0
  }

  /** Python's `str(v)`, which is what an f-string prints. */
  function PyText(v: Value): string
  {
    match v
    case B(b) => if b then "True" else "False"
    case S(s) => s
  }

  /** The width the description is wrapped to. */
  const WrapWidth: nat := 70

  /**
   * One catalog entry. A list-valued key that may be absent from the file
   * is an `Option`: `None` when the key is missing, `Some([])` when it is
   * present with an empty list.
   */
  datatype License = License(
    name: string,
    description: string,
    references: Option<seq<string>>,
    fsf: Value,
    osi: Value,
    gplCompatible: Value,
    copyleft: Value,
    staticLinking: Value,
    dynamicLinking: Value,
    intendedFor: string,
    permissions: Option<seq<string>>,
    conditions: Option<seq<string>>,
    limitations: Option<seq<string>>)

  /** The six yes/no lines of the summary, in the order they are printed. */
  datatype Label = Fsf | Osi | GplCompatible | Copyleft | StaticLinking | DynamicLinking

  /** The three list sections that close the summary. */
  datatype Section = Permissions | Conditions | Limitations

  /** A tick (`ok`) or a cross, and the italic note printed after it, if any. */
  datatype Flag = Flag(ok: bool, note: Option<string>)

  /** A printed line, styling removed. */
  datatype Line =
    | Title(name: string)
    | DescriptionLine(text: string)
    | ReferenceLine(number: nat, link: string)
    | FlagLine(which: Label, flag: Flag)
    | IntendedFor(text: string)
    | SectionHeading(section: Section)
    | SectionItem(item: string)

  /** FSF and OSI approval: a tick when the value is truthy, never a note. */
  function ApprovalFlag(v: Value): (f: Flag)
    ensures f.ok <==> Truthy(v)
    ensures f.note.None?
  {
    Flag(Truthy(v), None)
  }

  /**
   * GPL compatibility is three-way: exactly `True` is a plain tick, exactly
   * `False` a plain cross, and any other value a tick qualified by that value.
   */
  function GplFlag(v: Value): (f: Flag)
    ensures f.ok <==> v != B(false)
    ensures f.note.None? <==> v.B?
    ensures f.note.Some? ==> f.note.value == PyText(v)
  {
    if v == B(true) then Flag(true, None)
    else if v == B(false) then Flag(false, None)
    else Flag(true, Some(PyText(v)))
  }

  /** Copyleft: a plain cross when falsy, otherwise a tick noted with the value, `True` included. */
  function CopyleftFlag(v: Value): (f: Flag)
    ensures f.ok <==> Truthy(v)
    ensures f.note.Some? <==> Truthy(v)
    ensures f.note.Some? ==> f.note.value == PyText(v)
  {
    if !Truthy(v) then Flag(false, None)
    else Flag(true, Some(PyText(v)))
  }

  /** Static and dynamic linking: only exactly `True` is a tick; anything else is a cross noted with the value. */
  function LinkingFlag(v: Value): (f: Flag)
    ensures f.ok <==> v == B(true)
    ensures f.note.None? <==> v == B(true)
    ensures f.note.Some? ==> f.note.value == PyText(v)
  {
    if v == B(true) then Flag(true, None)
    else Flag(false, Some(PyText(v)))
  }

  /** The flag printed on a label's line. */
  function FlagFor(lic: License, which: Label): Flag
  {
    match which
    case Fsf => ApprovalFlag(lic.fsf)
    case Osi => ApprovalFlag(lic.osi)
    case GplCompatible => GplFlag(lic.gplCompatible)
    case Copyleft => CopyleftFlag(lic.copyleft)
    case StaticLinking => LinkingFlag(lic.staticLinking)
    case DynamicLinking => LinkingFlag(lic.dynamicLinking)
  }

  /** The record field behind a section. */
  function SectionField(lic: License, sec: Section): Option<seq<string>>
  {
    match sec
    case Permissions => lic.permissions
    case Conditions => lic.conditions
    case Limitations => lic.limitations
  }

  /** The references in stored order, numbered consecutively from `start`. */
  function ReferenceLines(links: seq<string>, start: nat): seq<Line>
  {
    seq(|links|, i requires 0 <= i < |links| => ReferenceLine(start + i, links[i]))
  }

  /** The six flags in their fixed order, then the intended-use line. */
  function FlagBlock(lic: License): seq<Line>
  {
    [FlagLine(Fsf, FlagFor(lic, Fsf)), FlagLine(Osi, FlagFor(lic, Osi)),
     FlagLine(GplCompatible, FlagFor(lic, GplCompatible)), FlagLine(Copyleft, FlagFor(lic, Copyleft)),
     FlagLine(StaticLinking, FlagFor(lic, StaticLinking)), FlagLine(DynamicLinking, FlagFor(lic, DynamicLinking)),
     IntendedFor(lic.intendedFor)]
  }

  /** A section: nothing when its key is absent, else its heading and its items verbatim. */
  function SectionLines(sec: Section, items: Option<seq<string>>): seq<Line>
  {
    match items
    case None => []
    case Some(xs) => [SectionHeading(sec)] + ItemLines(xs)
  }

  /** A section's items, one printed line each. */
  function ItemLines(xs: seq<string>): seq<Line>
  {
    seq(|xs|, i requires 0 <= i < |xs| => SectionItem(xs[i]))
  }

  /** Everything up to and including the intended-use line. */
  function Head(lic: License, desc: seq<string>): seq<Line>
  {
    [Title(lic.name)]
    + seq(|desc|, i requires 0 <= i < |desc| => DescriptionLine(desc[i]))
    + ReferenceLines(lic.references.GetOr([]), 1)
    + FlagBlock(lic)
  }

  /** The three sections, in their fixed order. */
  function Sections(lic: License): seq<Line>
  {
    SectionLines(Permissions, lic.permissions)
    + SectionLines(Conditions, lic.conditions)
    + SectionLines(Limitations, lic.limitations)
  }

  /**
   * `print_license_data` on a loaded license: the title, the description
   * wrapped to 70 columns, the numbered references, the six flags, the
   * intended use, then the sections whose keys are present.
   */
  function Summarize(lic: License, wrap: (string, nat) -> seq<string>): (r: seq<Line>)
    ensures var desc, refs := wrap(lic.description, WrapWidth), lic.references.GetOr([]);
            && |r| == 8 + |desc| + |refs| + |Sections(lic)|
            && r[0] == Title(lic.name)
            && (forall i :: 0 <= i < |desc| ==> r[1 + i] == DescriptionLine(desc[i]))
            && (forall j :: 0 <= j < |refs| ==> r[1 + |desc| + j] == ReferenceLine(j + 1, refs[j]))
            && r[1 + |desc| + |refs|..8 + |desc| + |refs|] == FlagBlock(lic)
            && r[8 + |desc| + |refs|..] == Sections(lic)
  {
    var desc := wrap(lic.description, WrapWidth);
    var head := Head(lic, desc);
    var refs := lic.references.GetOr([]);
    assert |head| == 8 + |desc| + |refs|;
    assert head[1 + |desc| + |refs|..] == FlagBlock(lic);
    head + Sections(lic)
  }

  // ---------------------------------------------------------------------------
  // Reading a summary back

  /** The first flag printed for `which`, if any. */
  function FlagOf(lines: seq<Line>, which: Label): Option<Flag>
  {
    if |lines| == 0 then None
    else if lines[0].FlagLine? && lines[0].which == which then Some(lines[0].flag)
    else FlagOf(lines[1..], which)
  }

  /** The links of the reference lines, in order. */
  function ReferenceLinks(lines: seq<Line>): seq<string>
  {
    if |lines| == 0 then []
    else (if lines[0].ReferenceLine? then [lines[0].link] else []) + ReferenceLinks(lines[1..])
  }

  /** The items directly following a point in the summary, up to the next non-item line. */
  function ItemsAfter(lines: seq<Line>): seq<string>
  {
    if |lines| == 0 || !lines[0].SectionItem? then []
    else [lines[0].item] + ItemsAfter(lines[1..])
  }

  /** What a reader sees under a section heading: `None` when the section is not printed. */
  function SectionOf(lines: seq<Line>, sec: Section): Option<seq<string>>
  {
    if |lines| == 0 then None
    else if lines[0] == SectionHeading(sec) then Some(ItemsAfter(lines[1..]))
    else SectionOf(lines[1..], sec)
  }

  /** Lines that carry no flag for `which` do not change what a reader finds for it. */
  lemma {:induction false} FlagOfSkip(xs: seq<Line>, ys: seq<Line>, which: Label)
    requires forall i :: 0 <= i < |xs| ==> !(xs[i].FlagLine? && xs[i].which == which)
    ensures FlagOf(xs + ys, which) == FlagOf(ys, which)
  {
    if |xs| > 0 {
      assert (xs + ys)[1..] == xs[1..] + ys;
      FlagOfSkip(xs[1..], ys, which);
    } else {
      assert xs + ys == ys;
    }
  }

  /** In the flag block each label's line is the flag computed for it. */
  lemma FlagOfBlock(lic: License, rest: seq<Line>, which: Label)
    ensures FlagOf(FlagBlock(lic) + rest, which) == Some(FlagFor(lic, which))
  {
    var block := FlagBlock(lic);
    var k := match which
      case Fsf => 0
      case Osi => 1
      case GplCompatible => 2
      case Copyleft => 3
      case StaticLinking => 4
      case DynamicLinking => 5;
    assert block[k] == FlagLine(which, FlagFor(lic, which));
    FlagOfSkip(block[..k], block[k..] + rest, which);
    assert block + rest == block[..k] + (block[k..] + rest);
  }

  /** Reading the summary back gives, for every label, the flag its value calls for. */
  lemma SummaryFlag(lic: License, wrap: (string, nat) -> seq<string>, which: Label)
    ensures FlagOf(Summarize(lic, wrap), which) == Some(FlagFor(lic, which))
  {
    var desc := wrap(lic.description, WrapWidth);
    SummarizeParts(lic, wrap);
    HeadFlag(lic, desc, Sections(lic), which);
  }

  /** Before the flag block there are only the title, description and reference lines. */
  lemma HeadFlag(lic: License, desc: seq<string>, rest: seq<Line>, which: Label)
    ensures FlagOf(Head(lic, desc) + rest, which) == Some(FlagFor(lic, which))
  {
    var before := [Title(lic.name)] + seq(|desc|, i requires 0 <= i < |desc| => DescriptionLine(desc[i]))
                  + ReferenceLines(lic.references.GetOr([]), 1);
    assert Head(lic, desc) + rest == before + (FlagBlock(lic) + rest);
    FlagOfSkip(before, FlagBlock(lic) + rest, which);
    FlagOfBlock(lic, rest, which);
  }

  /** Reference links distribute over concatenation. */
  lemma {:induction false} ReferenceLinksAppend(xs: seq<Line>, ys: seq<Line>)
    ensures ReferenceLinks(xs + ys) == ReferenceLinks(xs) + ReferenceLinks(ys)
  {
    if |xs| > 0 {
      assert (xs + ys)[1..] == xs[1..] + ys;
      ReferenceLinksAppend(xs[1..], ys);
    } else {
      assert xs + ys == ys;
    }
  }

  /** Lines that are not references contribute no links. */
  lemma {:induction false} ReferenceLinksNone(xs: seq<Line>)
    requires forall i :: 0 <= i < |xs| ==> !xs[i].ReferenceLine?
    ensures ReferenceLinks(xs) == []
  {
    if |xs| > 0 {
      ReferenceLinksNone(xs[1..]);
    }
  }

  /** The numbered reference lines give back the stored links. */
  lemma {:induction false} ReferenceLinksOfLines(links: seq<string>, start: nat)
    ensures ReferenceLinks(ReferenceLines(links, start)) == links
  {
    if |links| > 0 {
      assert ReferenceLines(links, start)[1..] == ReferenceLines(links[1..], start + 1);
      ReferenceLinksOfLines(links[1..], start + 1);
    }
  }

  /** The summary is its head followed by its sections. */
  lemma SummarizeParts(lic: License, wrap: (string, nat) -> seq<string>)
    ensures Summarize(lic, wrap) == Head(lic, wrap(lic.description, WrapWidth)) + Sections(lic)
  {
  }

  /** Reading the summary back gives the references exactly, in order; none when the key is absent. */
  lemma SummaryReferences(lic: License, wrap: (string, nat) -> seq<string>)
    ensures ReferenceLinks(Summarize(lic, wrap)) == lic.references.GetOr([])
  {
    SummarizeParts(lic, wrap);
    HeadReferences(lic, wrap(lic.description, WrapWidth));
    ReferenceLinksAppend(Head(lic, wrap(lic.description, WrapWidth)), Sections(lic));
    SectionsHaveNoReferences(lic);
    ReferenceLinksNone(Sections(lic));
  }

  lemma SectionsHaveNoReferences(lic: License)
    ensures forall i :: 0 <= i < |Sections(lic)| ==> !Sections(lic)[i].ReferenceLine?
  {
    var p := SectionLines(Permissions, lic.permissions);
    var c := SectionLines(Conditions, lic.conditions);
    var l := SectionLines(Limitations, lic.limitations);
    assert forall i :: 0 <= i < |p| ==> !p[i].ReferenceLine?;
    assert forall i :: 0 <= i < |c| ==> !c[i].ReferenceLine?;
    assert forall i :: 0 <= i < |l| ==> !l[i].ReferenceLine?;
    forall i | 0 <= i < |Sections(lic)|
      ensures !Sections(lic)[i].ReferenceLine?
    {
      if i < |p| {
        assert Sections(lic)[i] == p[i];
      } else if i < |p| + |c| {
        assert Sections(lic)[i] == c[i - |p|];
      } else {
        assert Sections(lic)[i] == l[i - |p| - |c|];
      }
    }
  }

  lemma HeadReferences(lic: License, desc: seq<string>)
    ensures ReferenceLinks(Head(lic, desc)) == lic.references.GetOr([])
  {
    var refs := lic.references.GetOr([]);
    var before := [Title(lic.name)] + seq(|desc|, i requires 0 <= i < |desc| => DescriptionLine(desc[i]));
    var lines := ReferenceLines(refs, 1);
    assert Head(lic, desc) == before + lines + FlagBlock(lic);
    ReferenceLinksAppend(before + lines, FlagBlock(lic));
    ReferenceLinksAppend(before, lines);
    ReferenceLinksNone(before);
    ReferenceLinksNone(FlagBlock(lic));
    ReferenceLinksOfLines(refs, 1);
  }

  /** Lines without the heading of `sec` do not change what a reader finds under it. */
  lemma {:induction false} SectionOfSkip(xs: seq<Line>, ys: seq<Line>, sec: Section)
    requires forall i :: 0 <= i < |xs| ==> xs[i] != SectionHeading(sec)
    ensures SectionOf(xs + ys, sec) == SectionOf(ys, sec)
  {
    if |xs| > 0 {
      assert (xs + ys)[1..] == xs[1..] + ys;
      SectionOfSkip(xs[1..], ys, sec);
    } else {
      assert xs + ys == ys;
    }
  }

  /** The item lines of a section read back as its items, whatever item lines follow. */
  lemma {:induction false} ItemsAfterItems(xs: seq<string>, ys: seq<Line>)
    ensures ItemsAfter(ItemLines(xs) + ys) == xs + ItemsAfter(ys)
  {
    if |xs| > 0 {
      assert (ItemLines(xs) + ys)[1..] == ItemLines(xs[1..]) + ys;
      ItemsAfterItems(xs[1..], ys);
    } else {
      assert ItemLines(xs) + ys == ys;
    }
  }

  /** Reading the section printed for `sec`, followed by lines that start no items. */
  lemma SectionOfLines(sec: Section, xs: seq<string>, ys: seq<Line>)
    requires |ys| == 0 || ys[0].SectionHeading?
    ensures SectionOf(SectionLines(sec, Some(xs)) + ys, sec) == Some(xs)
  {
    var lines := [SectionHeading(sec)] + (ItemLines(xs) + ys);
    assert SectionLines(sec, Some(xs)) + ys == lines;
    assert ItemsAfter(ys) == [];
    ItemsAfterItems(xs, ys);
    assert lines[1..] == ItemLines(xs) + ys;
    assert xs + [] == xs;
  }

  /** The lines of one section hold no heading of another. */
  lemma OtherSection(other: Section, items: Option<seq<string>>, sec: Section)
    requires other != sec
    ensures forall i :: 0 <= i < |SectionLines(other, items)| ==> SectionLines(other, items)[i] != SectionHeading(sec)
  {
  }

  /** A section that is not printed is found nowhere. */
  lemma SectionOfAbsent(sec: Section, ys: seq<Line>)
    requires forall i :: 0 <= i < |ys| ==> ys[i] != SectionHeading(sec)
    ensures SectionOf(ys, sec) == None
  {
    SectionOfSkip(ys, [], sec);
    assert ys + [] == ys;
  }

  /** The part of the summary after the intended-use line reads back section by section. */
  lemma SectionsReadBack(lic: License, sec: Section)
    ensures SectionOf(Sections(lic), sec) == SectionField(lic, sec)
  {
    var p := SectionLines(Permissions, lic.permissions);
    var c := SectionLines(Conditions, lic.conditions);
    var l := SectionLines(Limitations, lic.limitations);
    assert Sections(lic) == p + (c + l);
    match sec
    case Permissions =>
      OtherSection(Conditions, lic.conditions, sec);
      OtherSection(Limitations, lic.limitations, sec);
      if lic.permissions.Some? {
        SectionOfLines(Permissions, lic.permissions.value, c + l);
      } else {
        forall i | 0 <= i < |c + l|
          ensures (c + l)[i] != SectionHeading(sec)
        {
          if i < |c| {
            assert (c + l)[i] == c[i];
          } else {
            assert (c + l)[i] == l[i - |c|];
          }
        }
        SectionOfAbsent(sec, c + l);
        assert p + (c + l) == c + l;
      }
    case Conditions =>
      OtherSection(Permissions, lic.permissions, sec);
      OtherSection(Limitations, lic.limitations, sec);
      SectionOfSkip(p, c + l, sec);
      if lic.conditions.Some? {
        SectionOfLines(Conditions, lic.conditions.value, l);
      } else {
        SectionOfAbsent(sec, l);
        assert c + l == l;
      }
    case Limitations =>
      OtherSection(Permissions, lic.permissions, sec);
      OtherSection(Conditions, lic.conditions, sec);
      SectionOfSkip(p, c + l, sec);
      SectionOfSkip(c, l, sec);
      if lic.limitations.Some? {
        SectionOfLines(Limitations, lic.limitations.value, []);
        assert l + [] == l;
      } else {
        SectionOfAbsent(sec, l);
      }
  }

  /**
   * Reading the summary back finds a section exactly when its key is present,
   * with its items verbatim and in order, even when the list is empty.
   */
  lemma SummarySection(lic: License, wrap: (string, nat) -> seq<string>, sec: Section)
    ensures SectionOf(Summarize(lic, wrap), sec) == SectionField(lic, sec)
  {
    var head := Head(lic, wrap(lic.description, WrapWidth));
    SummarizeParts(lic, wrap);
    SectionOfSkip(head, Sections(lic), sec);
    SectionsReadBack(lic, sec);
  }

  /** The flag lines a reader sees for typical catalog values. */
  lemma FlagScenarios(lic: License, wrap: (string, nat) -> seq<string>)
    ensures lic.copyleft == B(false) ==> FlagOf(Summarize(lic, wrap), Copyleft) == Some(Flag(false, None))
    ensures lic.copyleft == B(true) ==> FlagOf(Summarize(lic, wrap), Copyleft) == Some(Flag(true, Some("True")))
    ensures lic.copyleft == S("weak") ==> FlagOf(Summarize(lic, wrap), Copyleft) == Some(Flag(true, Some("weak")))
    ensures lic.gplCompatible == S("v3 only") ==>
              FlagOf(Summarize(lic, wrap), GplCompatible) == Some(Flag(true, Some("v3 only")))
    ensures lic.staticLinking == B(false) ==>
              FlagOf(Summarize(lic, wrap), StaticLinking) == Some(Flag(false, Some("False")))
  {
    SummaryFlag(lic, wrap, Copyleft);
    SummaryFlag(lic, wrap, GplCompatible);
    SummaryFlag(lic, wrap, StaticLinking);
  }
}
