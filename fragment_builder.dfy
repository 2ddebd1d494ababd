/** The fragment builder (`build_html_section`): one section becomes a
    fixed-shape block of HTML with a heading and one list item per
    non-blank line. No HTML escaping is done. */
module FragmentBuilder {
  import opened PyBuiltins

  const SectionOpen: string := "<div class=\"resume-section\"><ul class=\"desc-list\">"
  const Divider: string := "<hr/>"
  const SectionClose: string := "</ul></div>"

  /** `''.join(parts)`. */
  function Concat(parts: seq<string>): string {
    if parts == [] then "" else parts[0] + Concat(parts[1..])
  }

  /** The heading text `sh`: the header stripped and lower-cased. */
  function HeaderText(header: string): string {
    Lower(Strip(header))
  }

  /** The CSS token: the heading text, lower-cased once more, with every
      space turned into a hyphen. */
  function CssToken(header: string): (r: string)
    ensures |r| == |HeaderText(header)|
    ensures ' ' !in r
    ensures forall i :: 0 <= i < |r| ==>
              r[i] == (if HeaderText(header)[i] == ' ' then '-' else HeaderText(header)[i])
  {
    var sh := HeaderText(header);
    HyphenatedLowered(sh);
    ReplaceChar(Lower(sh), ' ', '-')
  }

  /** Lower-casing lower-cased text again and replacing its spaces by hyphens
      leaves no space and touches nothing else. */
  lemma HyphenatedLowered(sh: string)
    requires forall i :: 0 <= i < |sh| ==> !('A' <= sh[i] <= 'Z')
    ensures var r := ReplaceChar(Lower(sh), ' ', '-');
      |r| == |sh| && ' ' !in r && forall i :: 0 <= i < |r| ==> r[i] == (if sh[i] == ' ' then '-' else sh[i])
  {
    var l := Lower(sh);
    assert forall i :: 0 <= i < |sh| ==> l[i] == sh[i];
    var r := ReplaceChar(l, ' ', '-');
    assert forall i :: 0 <= i < |r| ==> r[i] != ' ';
  }

  /** The heading element: the token names its class, the heading text is its content. */
  function Heading(header: string): string {
    "<h3 class=\"" + CssToken(header) + "-header\">" + HeaderText(header) + "</h3>"
  }

  /** A line is listed unless it is exactly empty or exactly one space; the
      test is made before the line is stripped. */
  predicate Listed(line: string) {
    line != "" && line != " "
  }

  /** The list item of one line: the stripped line between `<li>` tags. */
  function Item(line: string): string {
    "<li>" + Strip(line) + "</li>"
  }

  /** The list items of a section: one per listed line, in order. */
  function ListItems(lines: seq<string>): seq<string> {
    if lines == [] then []
    else (if Listed(lines[0]) then [Item(lines[0])] else []) + ListItems(lines[1..])
  }

  /** The fragment of one section, in the shape the page expects: the
      section container, the heading, the divider, the items and the
      closing tags. */
  function SectionHtml(header: string, lines: seq<string>): string {
    SectionOpen + Heading(header) + Divider + Concat(ListItems(lines)) + SectionClose
  }

  /** `build_html_section`: collects the opening parts, the filtered items
      and the closing tags into one list and joins it. */
  method BuildHtmlSection(sectionHeader: string, resSlots: seq<string>) returns (html: string)
    ensures html == SectionHtml(sectionHeader, resSlots)
  {
    var sh := Lower(Strip(sectionHeader));
    var cssClass := ReplaceChar(Lower(sh), ' ', '-');
    var container := [SectionOpen, "<h3 class=\"" + cssClass + "-header\">" + sh + "</h3>", Divider];
    var listItems: seq<string> := [];
    for i := 0 to |resSlots|
      invariant listItems == ListItems(resSlots[..i])
    {
      if resSlots[i] != "" && resSlots[i] != " " {
        listItems := listItems + ["<li>" + Strip(resSlots[i]) + "</li>"];
      }
      ListItemsSnoc(resSlots, i);
    }
    assert resSlots[..|resSlots|] == resSlots;
    listItems := listItems + [SectionClose];
    container := container + listItems;
    html := Concat(container);
    assert container[1] == Heading(sectionHeader);
    assert container == [SectionOpen, Heading(sectionHeader), Divider] + ListItems(resSlots) + [SectionClose];
    ConcatFrame(SectionOpen, Heading(sectionHeader), Divider, ListItems(resSlots), SectionClose);
  }

  /** The items of one more line are the items so far and that line's item. */
  lemma ListItemsSnoc(lines: seq<string>, i: nat)
    requires i < |lines|
    ensures ListItems(lines[..i + 1])
            == ListItems(lines[..i]) + (if Listed(lines[i]) then [Item(lines[i])] else [])
  {
    assert lines[..i + 1] == lines[..i] + [lines[i]];
    ListItemsAppend(lines[..i], [lines[i]]);
    assert [lines[i]][1..] == [];
  }

  /** Joining the opening parts, the items and the closing tag. */
  lemma ConcatFrame(a: string, b: string, c: string, items: seq<string>, d: string)
    ensures Concat([a, b, c] + items + [d]) == a + b + c + Concat(items) + d
  {
    ConcatAppend([a, b, c], items + [d]);
    ConcatAppend(items, [d]);
    assert [a, b, c] + items + [d] == [a, b, c] + (items + [d]);
    assert [a, b, c][1..] == [b, c] && [b, c][1..] == [c] && [c][1..] == [];
    assert Concat([c]) == c + "";
    assert Concat([b, c]) == b + Concat([c]);
    assert Concat([a, b, c]) == a + Concat([b, c]);
  }

  /** Lower-casing twice is lower-casing once. */
  lemma LowerIdempotent(s: string)
    ensures Lower(Lower(s)) == Lower(s)
  {
    assert forall i :: 0 <= i < |s| ==> Lower(Lower(s))[i] == Lower(s)[i];
  }

  /** Joining two lists is joining each and putting the results together. */
  lemma {:induction false} ConcatAppend(a: seq<string>, b: seq<string>)
    ensures Concat(a + b) == Concat(a) + Concat(b)
  {
    if a == [] {
      assert a + b == b;
    } else {
      assert (a + b)[1..] == a[1..] + b;
      ConcatAppend(a[1..], b);
    }
  }

  /** The items of two runs of lines are the items of the first followed by
      the items of the second: filtering keeps the order of the lines. */
  lemma {:induction false} ListItemsAppend(a: seq<string>, b: seq<string>)
    ensures ListItems(a + b) == ListItems(a) + ListItems(b)
  {
    if a == [] {
      assert a + b == b;
    } else {
      assert (a + b)[1..] == a[1..] + b;
      ListItemsAppend(a[1..], b);
    }
  }

  /** Every line is listed except the empty and the single-space ones. */
  lemma {:induction false} ListItemsCount(lines: seq<string>)
    ensures |ListItems(lines)| == |lines| - multiset(lines)[""] - multiset(lines)[" "]
  {
    if lines != [] {
      assert lines == [lines[0]] + lines[1..];
      ListItemsCount(lines[1..]);
    }
  }

  /** A line of two or more spaces passes the filter and strips to nothing,
      so it is listed as an empty item. */
  lemma BlankLineListedEmpty(line: string)
    requires |line| >= 2 && forall i :: 0 <= i < |line| ==> line[i] == ' '
    ensures ListItems([line]) == ["<li></li>"]
  {
    assert line != "" && line != " " by { assert |line| >= 2; }
    StripSpec(line);
    assert Strip(line) == [];
    assert Item(line) == "<li></li>";
    assert [line][1..] == [];
  }

  /** A line that neither starts nor ends with whitespace strips to itself. */
  lemma StripTrimmed(s: string)
    requires s != [] && !IsSpace(s[0]) && !IsSpace(s[|s| - 1])
    ensures Strip(s) == s
  {
    assert LStrip(s) == s;
    assert RStrip(s) == s;
  }

  /** Four lines of which the first three are listed give the three items
      of those lines, in order. */
  lemma ListItemsOfFour(a: string, b: string, c: string, d: string)
    requires Listed(a) && Listed(b) && Listed(c) && !Listed(d)
    ensures ListItems([a, b, c, d]) == [Item(a), Item(b), Item(c)]
  {
    ListItemsCons(d, []);
    assert [c, d] == [c] + [d];
    ListItemsCons(c, [d]);
    assert [b, c, d] == [b] + [c, d];
    ListItemsCons(b, [c, d]);
    assert [a, b, c, d] == [a] + [b, c, d];
    ListItemsCons(a, [b, c, d]);
  }

  /** The items of a line followed by more lines. */
  lemma ListItemsCons(line: string, rest: seq<string>)
    ensures ListItems([line] + rest) == (if Listed(line) then [Item(line)] else []) + ListItems(rest)
  {
    assert ([line] + rest)[1..] == rest;
  }

  /** The sample lines give three items: the two-space line passes the
      filter and is listed empty, only the empty line is dropped. */
  lemma SampleItems()
    ensures ListItems(["Python", "  ", "Go", ""]) == ["<li>Python</li>", "<li></li>", "<li>Go</li>"]
  {
    StripTrimmed("Python");
    StripTrimmed("Go");
    StripSpec("  ");
    assert Strip("  ") == "";
    ListItemsOfFour("Python", "  ", "Go", "");
    assert Item("Python") == "<li>Python</li>";
    assert Item("  ") == "<li></li>";
    assert Item("Go") == "<li>Go</li>";
  }

  /** A header literal written as words followed by trailing spaces, as the
      three section literals are, has those words lower-cased as its heading,
      and the token is that heading with hyphens for spaces. */
  lemma PaddedHeaderText(words: string, pad: nat)
    requires |words| > 0 && !IsSpace(words[0]) && !IsSpace(words[|words| - 1])
    ensures HeaderText(words + seq(pad, _ => ' ')) == Lower(words)
    ensures CssToken(words + seq(pad, _ => ' ')) == ReplaceChar(Lower(words), ' ', '-')
  {
    var header := words + seq(pad, _ => ' ');
    assert LStrip(header) == header;
    RStripSpec(header);
    var r := RStrip(header);
    assert r == words by {
      assert header[..|words|] == words;
      assert !IsSpace(header[|words| - 1]);
    }
    LowerIdempotent(words);
  }
}
