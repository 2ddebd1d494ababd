/** The assembler (`stitch_resume`) and the run of the entry point: the
    fragments of the sections are joined inside the resume container, the
    fixed references block is built beside it, and both are handed to the
    page template. The template renderer is a parameter. */
module Assembler {
  import opened ResumeTypes
  import opened PyBuiltins
  import opened Normalizer
  import opened SectionExtractor
  import opened FragmentBuilder

  const ContainerOpen: string := "<div id=\"resume-container\" class=\"resume-container\"> "
  const ContainerClose: string := " </div>"

  /** The references slot: the reference-request line inside its own block. */
  const ReferencesHtml: string := "<div class='references'>" + References + "</div>"

  /** `''.join(f(x, y) for x, y in zip(xs, ys))`: the pairing stops at the
      shorter of the two lists. */
  function ZipJoin<A, B>(f: (A, B) -> string, xs: seq<A>, ys: seq<B>): string {
    if xs == [] || ys == [] then "" else f(xs[0], ys[0]) + ZipJoin(f, xs[1..], ys[1..])
  }

  /** The fragments of `zip(headers, sections)`, joined in order. */
  function Fragments(headers: seq<string>, sections: seq<seq<string>>): string {
    ZipJoin(SectionHtml, headers, sections)
  }

  /** The resume slot: the joined fragments inside the resume container. */
  function ContainerHtml(headers: seq<string>, sections: seq<seq<string>>): string {
    ContainerOpen + Fragments(headers, sections) + ContainerClose
  }

  /** `stitch_resume`: accumulates the fragments pair by pair, wraps them in
      the container and renders the page from the two slots. `render` takes
      the resume slot first and the references slot second. */
  method StitchResume(sectionHeaders: seq<string>, sections: seq<seq<string>>,
                      render: (string, string) -> string)
    returns (page: string)
    ensures page == render(ContainerHtml(sectionHeaders, sections), ReferencesHtml)
  {
    var n := if |sectionHeaders| <= |sections| then |sectionHeaders| else |sections|;
    var skillBuilder := "";
    for i := 0 to n
      invariant skillBuilder == Fragments(sectionHeaders[..i], sections[..i])
    {
      var fragment := BuildHtmlSection(sectionHeaders[i], sections[i]);
      ZipJoinSnoc(SectionHtml, sectionHeaders, sections, i);
      skillBuilder := skillBuilder + fragment;
    }
    ZipJoinShorter(SectionHtml, sectionHeaders, sections);
    var resContainer := ContainerOpen + skillBuilder + ContainerClose;
    var refs := "<div class='references'>" + References + "</div>";
    page := render(resContainer, refs);
  }

  /** One more pair adds its part at the end. */
  lemma {:induction false} ZipJoinSnoc<A, B>(f: (A, B) -> string, xs: seq<A>, ys: seq<B>, i: nat)
    requires i < |xs| && i < |ys|
    ensures ZipJoin(f, xs[..i + 1], ys[..i + 1]) == ZipJoin(f, xs[..i], ys[..i]) + f(xs[i], ys[i])
  {
    if i == 0 {
      assert xs[..1][1..] == [] && ys[..1][1..] == [];
    } else {
      assert xs[..i + 1][1..] == xs[1..][..i];
      assert ys[..i + 1][1..] == ys[1..][..i];
      assert xs[..i][1..] == xs[1..][..i - 1];
      assert ys[..i][1..] == ys[1..][..i - 1];
      ZipJoinSnoc(f, xs[1..], ys[1..], i - 1);
    }
  }

  /** `zip` stops at the shorter input: the pairs past it contribute nothing. */
  lemma {:induction false} ZipJoinShorter<A, B>(f: (A, B) -> string, xs: seq<A>, ys: seq<B>)
    ensures var n := if |xs| <= |ys| then |xs| else |ys|;
      ZipJoin(f, xs, ys) == ZipJoin(f, xs[..n], ys[..n])
  {
    var n := if |xs| <= |ys| then |xs| else |ys|;
    if n > 0 {
      ZipJoinShorter(f, xs[1..], ys[1..]);
      var h, s := xs[..n], ys[..n];
      assert h[0] == xs[0] && s[0] == ys[0];
      assert h[1..] == xs[1..][..n - 1];
      assert s[1..] == ys[1..][..n - 1];
    }
  }

  /** Three pairs join to their three parts, in order. */
  lemma ZipJoinThree<A, B>(f: (A, B) -> string, a: A, b: A, c: A, x: B, y: B, z: B)
    ensures ZipJoin(f, [a, b, c], [x, y, z]) == f(a, x) + f(b, y) + f(c, z)
  {
    assert [a, b, c][1..] == [b, c] && [x, y, z][1..] == [y, z];
    assert [b, c][1..] == [c] && [y, z][1..] == [z];
    assert [c][1..] == [] && [z][1..] == [];
    assert ZipJoin(f, [c], [z]) == f(c, z) + "";
    assert ZipJoin(f, [b, c], [y, z]) == f(b, y) + ZipJoin(f, [c], [z]);
    assert ZipJoin(f, [a, b, c], [x, y, z]) == f(a, x) + ZipJoin(f, [b, c], [y, z]);
  }

  /** A document's fragments are the skills, experience and education
      fragments, in that order. */
  lemma DocumentFragments(d: Document)
    ensures Fragments(d.Headers(), d.Bodies())
            == SectionHtml(d.skillHead, d.skills) + SectionHtml(d.expHead, d.experience)
               + SectionHtml(d.eduHead, d.education)
  {
    ZipJoinThree(SectionHtml, d.skillHead, d.expHead, d.eduHead, d.skills, d.experience, d.education);
  }

  /** The pure part of the entry point: clean the lines, drop the reference
      line, find the sections. */
  function Parse(raw: seq<string>): Result<Document, Error> {
    match CleanResume(raw)
    case Failure(e) => Failure(e)
    case Success(crc) =>
      if References !in crc then Failure(ReferencesNotFound)
      else FindSections(RemoveFirst(crc, References))
  }

  /** A run produces a document exactly when the file is not empty, the
      reference line is there and all three headers are, once cleaned; the
      document's headers are then the three literals. */
  lemma ParseSucceeds(raw: seq<string>)
    ensures Parse(raw).Success? <==>
      raw != [] && (var crc := CleanResume(raw).value;
        References in crc && SkillsHeader in crc && ExperienceHeader in crc && EducationHeader in crc)
    ensures Parse(raw).Success? ==> Parse(raw).value.Headers() == Sections
  {
    if raw != [] {
      var crc := CleanResume(raw).value;
      if References in crc {
        var rest := RemoveFirst(crc, References);
        assert SkillsHeader != References && ExperienceHeader != References
          && EducationHeader != References;
        assert SkillsHeader in rest <==> SkillsHeader in crc;
        assert ExperienceHeader in rest <==> ExperienceHeader in crc;
        assert EducationHeader in rest <==> EducationHeader in crc;
      }
    }
  }

  /** When the reference line occurs once in the cleaned resume, no
      section of the document holds it: it appears only in the fixed
      references block. */
  lemma ReferenceLineNotInSections(raw: seq<string>)
    requires Parse(raw).Success?
    requires AtMostOnce(CleanResume(raw).value, References)
    ensures References !in Parse(raw).value.skills
    ensures References !in Parse(raw).value.experience
    ensures References !in Parse(raw).value.education
  {
    var crc := CleanResume(raw).value;
    assert References in crc;
    var rest := RemoveFirst(crc, References);
    assert Parse(raw) == FindSections(rest);
    RemoveFirstUnique(crc, References);
    var sk, ex, ed := FoundAt(rest);
    SliceWithout(rest, sk + 1, ex, References);
    SliceWithout(rest, ex + 1, ed, References);
    SliceWithout(rest, ed + 1, |rest|, References);
  }

  /** Removing the only occurrence of `x` leaves no `x`. */
  lemma RemoveFirstUnique<T(!new)>(s: seq<T>, x: T)
    requires x in s && AtMostOnce(s, x)
    ensures x !in RemoveFirst(s, x)
  {
    var r := RemoveFirst(s, x);
    var i := IndexOf(s, x).value;
    forall k | 0 <= k < |r| ensures r[k] != x {
      if k < i {
        assert r[k] == s[..i][k];
      } else {
        assert r[k] == s[k + 1];
      }
    }
  }

  /** A slice holds nothing its list does not. */
  lemma SliceWithout(s: seq<string>, i: nat, j: nat, x: string)
    requires x !in s
    ensures x !in Slice(s, i, j)
  {
    var r := Slice(s, i, j);
    forall k | 0 <= k < |r| ensures r[k] != x {
      assert r[k] == s[i + k];
    }
  }

  /** The entry point without its I/O: the resume lines are cleaned, the
      reference line is popped from them in place, the sections are found
      and the page is rendered; every failure stops the run with no page. */
  method Run(raw: seq<string>, render: (string, string) -> string)
    returns (r: Result<string, Error>)
    ensures r.Failure? <==> Parse(raw).Failure?
    ensures r.Failure? ==> r.error == Parse(raw).error
    ensures r.Success? ==>
      var d := Parse(raw).value;
      r.value == render(ContainerHtml(d.Headers(), d.Bodies()), ReferencesHtml)
  {
    var cleaned := CleanResume(raw);
    if cleaned.Failure? {
      return Failure(cleaned.error);
    }
    var crc := new ResumeLines(cleaned.value);
    var found := crc.ExtractRefLine();
    if found.Fail? {
      return Failure(found.error);
    }
    var doc := FindSections(crc.lines);
    if doc.Failure? {
      return Failure(doc.error);
    }
    var d := doc.value;
    var page := StitchResume([d.skillHead, d.expHead, d.eduHead],
                             [d.skills, d.experience, d.education], render);
    return Success(page);
  }
}
