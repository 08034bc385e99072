/** The README generator page (`app/readme-generator/page.tsx`): a fixed README
    template with the repository name filled in at three places. */
module ReadmeGenerator {
  import opened Wrappers
  import opened Text

  // The template, cut at the three places the name goes. The cuts fall so that
  // the heading, the `git clone` line and the `cd` line are pieces of their own.

  const TitleMark: string := "# "

  const DescriptionHeading: string := "\n\n## \U{1F4CB} Description"

  const DescriptionToInstall: string :=
    "\nA brief description of what this project does and who it's for.\n"
    + "\n## \U{1F680} Features\n"
    + "- Feature 1\n"
    + "- Feature 2  \n"
    + "- Feature 3\n"
    + "\n## \U{1F6E0}\U{FE0F} Installation\n"
    + "\n```bash"

  const CloneLead: string := "git clone https://github.com/username/"

  const CloneEnd: string := ".git"

  const CdLead: string := "cd "

  const Closing: string :=
    "npm install\n"
    + "```\n"
    + "\n## \U{1F4BB} Usage\n"
    + "\n```bash\n"
    + "npm start\n"
    + "```\n"
    + "\n## \U{1F91D} Contributing\n"
    + "Contributions are welcome! Please feel free to submit a Pull Request.\n"
    + "\n## \U{1F4C4} License\n"
    + "This project is licensed under the MIT License.\n"
    + "\n## \U{1F468}\U{200D}\U{1F4BB} Author\n"
    + "Your Name - [@yourusername](https://github.com/yourusername)\n"

  /** The length of the template without the name. */
  const FixedLength: nat :=
    |TitleMark| + |DescriptionHeading| + |DescriptionToInstall| + 1 + |CloneLead|
    + |CloneEnd| + 1 + |CdLead| + 1 + |Closing|

  /** What starts `a + (b + (c + d))`: `a + b + c`, with `b` right after `a`. */
  lemma FrontOf(a: string, b: string, c: string, d: string)
    ensures var s := a + (b + (c + d));
      && |s| >= |a| + |b| + |c|
      && s[..|a| + |b| + |c|] == a + b + c
      && s[|a|..|a| + |b|] == b
  {
    var s := a + (b + (c + d));
    assert s == (a + b + c) + d;
    assert s[|a|..|a| + |b|] == (a + b + c)[|a|..|a| + |b|];
  }

  /** The template literal of `generateReadme` with `name` substituted: the fixed
      text, with the name after the title mark, at the end of the `git clone` URL
      and after `cd`. */
  function Template(name: string): (r: string)
    ensures |r| == FixedLength + 3 * |name|
    ensures |r| >= |TitleMark + name + DescriptionHeading|
      && r[..|TitleMark + name + DescriptionHeading|] == TitleMark + name + DescriptionHeading
    ensures r[|TitleMark|..|TitleMark| + |name|] == name
    ensures HasLine(r, CloneLead + name + CloneEnd)
    ensures HasLine(r, CdLead + name)
    ensures EndsWithNewline(r)
  {
    var cloneLine := CloneLead + name + CloneEnd;
    var cdLine := CdLead + name;
    var fromCd := "\n" + (cdLine + ("\n" + Closing));
    var fromClone := "\n" + (cloneLine + fromCd);
    var rest := DescriptionToInstall + fromClone;
    var r := TitleMark + (name + (DescriptionHeading + rest));
    FrontOf(TitleMark, name, DescriptionHeading, rest);
    LineBetween(cloneLine, cdLine + ("\n" + Closing));
    HasLineWithin(DescriptionToInstall, fromClone, cloneLine);
    HasLineWithin(DescriptionHeading, rest, cloneLine);
    HasLineWithin(name, DescriptionHeading + rest, cloneLine);
    HasLineWithin(TitleMark, name + (DescriptionHeading + rest), cloneLine);
    LineBetween(cdLine, Closing);
    HasLineWithin(cloneLine, fromCd, cdLine);
    HasLineWithin("\n", cloneLine + fromCd, cdLine);
    HasLineWithin(DescriptionToInstall, fromClone, cdLine);
    HasLineWithin(DescriptionHeading, rest, cdLine);
    HasLineWithin(name, DescriptionHeading + rest, cdLine);
    HasLineWithin(TitleMark, name + (DescriptionHeading + rest), cdLine);
    assert EndsWithNewline(Closing);
    EndsWithNewlineWithin("\n", Closing);
    EndsWithNewlineWithin(cdLine, "\n" + Closing);
    EndsWithNewlineWithin("\n", cdLine + ("\n" + Closing));
    EndsWithNewlineWithin(cloneLine, fromCd);
    EndsWithNewlineWithin("\n", cloneLine + fromCd);
    EndsWithNewlineWithin(DescriptionToInstall, fromClone);
    EndsWithNewlineWithin(DescriptionHeading, rest);
    EndsWithNewlineWithin(name, DescriptionHeading + rest);
    EndsWithNewlineWithin(TitleMark, name + (DescriptionHeading + rest));
    r
  }

  /** The fixed text between the title mark and the name in the `git clone` line. */
  const BeforeClone: string := DescriptionHeading + DescriptionToInstall + "\n" + CloneLead

  /** The fixed text between the name in the `git clone` line and the one after `cd`. */
  const BeforeCd: string := CloneEnd + "\n" + CdLead

  /** Where the second and the third copy of the name go. */
  const CloneSlot: nat := |TitleMark| + |BeforeClone|
  const CdSlot: nat := CloneSlot + |BeforeCd|

  /** The template's nesting, regrouped around the three copies of the name. */
  lemma TemplateRegroup(t: string, n: string, dh: string, di: string, cl: string, ce: string, cd: string, tail: string)
    ensures t + (n + (dh + (di + ("\n" + ((cl + n + ce) + ("\n" + ((cd + n) + tail)))))))
      == t + n + (dh + di + "\n" + cl) + n + (ce + "\n" + cd) + n + tail
  {
  }

  /** The template is the four fixed pieces with the name between them. */
  lemma TemplateLayout(name: string)
    ensures Template(name) == TitleMark + name + BeforeClone + name + BeforeCd + name + ("\n" + Closing)
  {
    TemplateRegroup(TitleMark, name, DescriptionHeading, DescriptionToInstall, CloneLead, CloneEnd, CdLead, "\n" + Closing);
  }

  /** Leaving the name empty leaves just the fixed pieces. */
  lemma EmptyName(a: string, b: string, c: string, d: string)
    ensures a + "" + b + "" + c + "" + d == a + b + c + d
  {
  }

  /** The text around three copies of a name, cut back out of the text with the
      name left empty. */
  lemma Slots(f: string, a: string, b: string, c: string, d: string, name: string, i: nat, j: nat)
    requires f == a + b + c + d
    requires i == |a| + |b| && j == i + |c|
    ensures j <= |f|
    ensures a + name + b + name + c + name + d
      == f[..|a|] + name + f[|a|..i] + name + f[i..j] + name + f[j..]
  {
    assert f[..|a|] == a;
    assert f[|a|..i] == b;
    assert f[i..j] == c;
    assert f[j..] == d;
  }

  /** The README for `name` is the README for the empty name with `name` put in
      at the title, the `git clone` URL and the `cd` line, and nothing else
      changed. */
  lemma TemplateSubstitutes(name: string)
    ensures var f := Template("");
      && CdSlot <= |f|
      && Template(name) == f[..|TitleMark|] + name + f[|TitleMark|..CloneSlot] + name
                           + f[CloneSlot..CdSlot] + name + f[CdSlot..]
  {
    var d := "\n" + Closing;
    var f := Template("");
    TemplateLayout(name);
    TemplateLayout("");
    EmptyName(TitleMark, BeforeClone, BeforeCd, d);
    Slots(f, TitleMark, BeforeClone, BeforeCd, d, name, CloneSlot, CdSlot);
  }

  /** Reads the name back from a generated README, using only its length and the
      place of the heading. */
  function ReadName(readme: string): Option<string> {
    if |readme| < FixedLength || (|readme| - FixedLength) % 3 != 0 then None
    else
      var n := (|readme| - FixedLength) / 3;
      if |TitleMark| + n <= |readme| then Some(readme[|TitleMark|..|TitleMark| + n]) else None
  }

  lemma ThirdOfTriple(m: int, k: nat)
    requires m == 3 * k
    ensures m % 3 == 0 && m / 3 == k
  {
  }

  /** The name is recovered from the README it produced, so different names give
      different READMEs. */
  lemma ReadNameOfTemplate(name: string)
    ensures ReadName(Template(name)) == Some(name)
  {
    ReadNameOfLayout(Template(name), name);
  }

  /** Any text of the template's length for `name` that holds `name` after the
      title mark reads back as `name`. */
  lemma ReadNameOfLayout(readme: string, name: string)
    requires |readme| == FixedLength + 3 * |name|
    requires readme[|TitleMark|..|TitleMark| + |name|] == name
    ensures ReadName(readme) == Some(name)
  {
    ThirdOfTriple(|readme| - FixedLength, |name|);
  }

  /** `generateReadme`: an empty name leaves the current README as it is; any
      other name, even one made only of spaces, gives the template for it. */
  function GenerateReadme(current: string, name: string): (r: string)
    ensures name == [] ==> r == current
    ensures name != [] ==> r == Template(name)
    ensures name != [] ==>
      && ReadName(r) == Some(name)
      && |r| >= |TitleMark + name + DescriptionHeading|
      && r[..|TitleMark + name + DescriptionHeading|] == TitleMark + name + DescriptionHeading
      && HasLine(r, CloneLead + name + CloneEnd)
      && HasLine(r, CdLead + name)
      && EndsWithNewline(r)
  {
    if name == [] then current
    else
      ReadNameOfTemplate(name);
      Template(name)
  }
}
