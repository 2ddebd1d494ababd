/** The section extractor: the reference-request line is popped from the
    cleaned lines in place (`extract_ref_line`), then the first position of
    each header literal is looked up and the lines are cut into the three
    sections between consecutive headers. */
module SectionExtractor {
  import opened ResumeTypes
  import opened PyBuiltins

  /** The cleaned resume lines, the list `extract_ref_line` mutates. */
  class ResumeLines {
    var lines: seq<string>

    constructor (content: seq<string>)
      ensures lines == content
    {
      lines := content;
    }

    /** `extract_ref_line`: pops the first line equal to the reference-request
        literal. When there is none, `list.index` raises and the list is left
        as it was. */
    method ExtractRefLine() returns (o: Outcome<Error>)
      modifies this
      ensures o.Fail? <==> References !in old(lines)
      ensures o.Fail? ==> o.error == ReferencesNotFound && lines == old(lines)
      ensures o.Pass? ==> lines == RemoveFirst(old(lines), References)
    {
      var i := IndexOf(lines, References);
      if i.None? {
        return Fail(ReferencesNotFound);
      }
      lines := Pop(lines, i.value);
      return Pass;
    }
  }

  /** `[crc.index(item) for item in headers]`: the first position of every
      header, in order, or the first header (in order) that is missing. */
  function LocateHeaders(crc: seq<string>, headers: seq<string>): (r: Result<seq<nat>, Error>)
    ensures r.Success? <==> forall k :: 0 <= k < |headers| ==> headers[k] in crc
    ensures r.Success? ==> |r.value| == |headers|
    ensures r.Success? ==> forall k :: 0 <= k < |headers| ==> IndexOf(crc, headers[k]) == Some(r.value[k])
  {
    if headers == [] then Success([])
    else match IndexOf(crc, headers[0])
      case None =>
        assert headers[0] !in crc;
        Failure(SectionNotFound(headers[0]))
      case Some(p) =>
        var tail := headers[1..];
        assert forall k :: 1 <= k < |headers| ==> headers[k] == tail[k - 1];
        match LocateHeaders(crc, tail)
        case Failure(e) =>
          Failure(e)
        case Success(ps) =>
          var r := [p] + ps;
          assert forall k :: 1 <= k < |headers| ==> r[k] == ps[k - 1];
          Success(r)
  }

  /** The lookup stops at the first missing header: when every header
      before position `k` is present and `headers[k]` is not, the error names
      `headers[k]`. */
  lemma {:induction false} LocateHeadersFirstMissing(crc: seq<string>, headers: seq<string>, k: nat)
    requires k < |headers| && headers[k] !in crc
    requires forall m :: 0 <= m < k ==> headers[m] in crc
    ensures LocateHeaders(crc, headers) == Failure(SectionNotFound(headers[k]))
  {
    if k > 0 {
      var tail := headers[1..];
      assert headers[0] in crc;
      assert forall m :: 0 <= m < k - 1 ==> tail[m] == headers[m + 1];
      LocateHeadersFirstMissing(crc, tail, k - 1);
    }
  }

  /** The header lookup and slicing of the entry point: the three header
      lines and the lines from each header up to the next one (the last up to
      the end), sliced as Python slices, with no document when a header is
      missing. */
  function FindSections(crc: seq<string>): (r: Result<Document, Error>)
    ensures r.Success? <==> SkillsHeader in crc && ExperienceHeader in crc && EducationHeader in crc
    ensures r.Failure? ==>
      || (SkillsHeader !in crc && r.error == SectionNotFound(SkillsHeader))
      || (SkillsHeader in crc && ExperienceHeader !in crc && r.error == SectionNotFound(ExperienceHeader))
      || (SkillsHeader in crc && ExperienceHeader in crc && EducationHeader !in crc
          && r.error == SectionNotFound(EducationHeader))
    ensures r.Success? ==> r.value.Headers() == Sections
  {
    match LocateHeaders(crc, Sections)
    case Failure(e) =>
      if SkillsHeader !in crc then
        LocateHeadersFirstMissing(crc, Sections, 0);
        Failure(e)
      else if ExperienceHeader !in crc then
        LocateHeadersFirstMissing(crc, Sections, 1);
        Failure(e)
      else
        LocateHeadersFirstMissing(crc, Sections, 2);
        Failure(e)
    case Success(pos) =>
      var sk, ex, ed := pos[0], pos[1], pos[2];
      Success(Document(crc[sk], crc[ex], crc[ed],
                       Slice(crc, sk + 1, ex), Slice(crc, ex + 1, ed), Slice(crc, ed + 1, |crc|)))
  }

  /** The document FindSections builds, in terms of the first position of
      each header. */
  lemma FoundAt(crc: seq<string>) returns (sk: nat, ex: nat, ed: nat)
    requires FindSections(crc).Success?
    ensures IndexOf(crc, SkillsHeader) == Some(sk)
    ensures IndexOf(crc, ExperienceHeader) == Some(ex)
    ensures IndexOf(crc, EducationHeader) == Some(ed)
    ensures FindSections(crc).value.skillHead == crc[sk]
    ensures FindSections(crc).value.expHead == crc[ex]
    ensures FindSections(crc).value.eduHead == crc[ed]
    ensures FindSections(crc).value.skills == Slice(crc, sk + 1, ex)
    ensures FindSections(crc).value.experience == Slice(crc, ex + 1, ed)
    ensures FindSections(crc).value.education == Slice(crc, ed + 1, |crc|)
  {
    var pos := LocateHeaders(crc, Sections).value;
    sk, ex, ed := pos[0], pos[1], pos[2];
    assert IndexOf(crc, Sections[0]) == Some(sk);
    assert IndexOf(crc, Sections[1]) == Some(ex);
    assert IndexOf(crc, Sections[2]) == Some(ed);
  }

  /** With the header lines in line order (skills, experience, education),
      the three header lines and their sections put back together are exactly
      the lines from the skills header to the end: nothing is lost, repeated
      or reordered. */
  lemma SectionsTile(crc: seq<string>, sk: nat, ex: nat, ed: nat)
    requires IndexOf(crc, SkillsHeader) == Some(sk)
    requires IndexOf(crc, ExperienceHeader) == Some(ex)
    requires IndexOf(crc, EducationHeader) == Some(ed)
    requires sk < ex < ed
    ensures FindSections(crc).Success?
    ensures var d := FindSections(crc).value;
      [d.skillHead] + d.skills + [d.expHead] + d.experience + [d.eduHead] + d.education == crc[sk..]
  {
    assert SkillsHeader in crc && ExperienceHeader in crc && EducationHeader in crc;
    assert FindSections(crc).Success?;
    var sk', ex', ed' := FoundAt(crc);
    assert sk' == sk && ex' == ex && ed' == ed;
    var d := FindSections(crc).value;
    SlicesTile(crc, sk, ex, ed, d.skillHead, d.skills, d.expHead, d.experience, d.eduHead, d.education);
  }

  /** Three ordered cut points split the lines from the first one onwards
      into the cut lines and the slices between them. */
  lemma SlicesTile<T>(s: seq<T>, a: nat, b: nat, c: nat,
                      ha: T, sa: seq<T>, hb: T, sb: seq<T>, hc: T, sc: seq<T>)
    requires a < b < c < |s|
    requires ha == s[a] && hb == s[b] && hc == s[c]
    requires sa == Slice(s, a + 1, b) && sb == Slice(s, b + 1, c) && sc == Slice(s, c + 1, |s|)
    ensures [ha] + sa + [hb] + sb + [hc] + sc == s[a..]
  {
    assert sa == s[a + 1..b];
    assert sb == s[b + 1..c];
    assert sc == s[c + 1..];
    assert s[a..] == [s[a]] + s[a + 1..b] + [s[b]] + s[b + 1..c] + [s[c]] + s[c + 1..];
  }

  /** A section never holds the header of the section after it, since that
      header's first occurrence is where the section stops. The skills
      section does not hold the education header when that header comes
      after the experience header, and does hold it when it falls between
      the skills and experience headers. */
  lemma SectionsOmitLaterHeaders(crc: seq<string>)
    requires FindSections(crc).Success?
    ensures ExperienceHeader !in FindSections(crc).value.skills
    ensures EducationHeader !in FindSections(crc).value.experience
    ensures IndexOf(crc, ExperienceHeader).value < IndexOf(crc, EducationHeader).value ==>
              EducationHeader !in FindSections(crc).value.skills
    ensures IndexOf(crc, SkillsHeader).value < IndexOf(crc, EducationHeader).value
              < IndexOf(crc, ExperienceHeader).value ==>
              EducationHeader in FindSections(crc).value.skills
  {
    var sk, ex, ed := FoundAt(crc);
    SliceAvoids(crc, sk + 1, ex, ExperienceHeader);
    SliceAvoids(crc, ex + 1, ed, EducationHeader);
    if ex < ed {
      SliceAvoids(crc, sk + 1, ex, EducationHeader);
    }
    if sk < ed < ex {
      var skills := Slice(crc, sk + 1, ex);
      assert skills[ed - sk - 1] == crc[ed];
    }
  }

  /** A slice that ends at or before the first occurrence of `x` holds no `x`. */
  lemma SliceAvoids(crc: seq<string>, i: nat, j: nat, x: string)
    requires IndexOf(crc, x).Some? && j <= IndexOf(crc, x).value
    ensures x !in Slice(crc, i, j)
  {
    var p := IndexOf(crc, x).value;
    var s := Slice(crc, i, j);
    forall k | 0 <= k < |s| ensures s[k] != x {
      assert s[k] == crc[..p][i + k];
    }
  }

  /** `x` occurs at most once among the lines. */
  predicate AtMostOnce<T(==)>(crc: seq<T>, x: T) {
    forall i, j :: 0 <= i < j < |crc| && crc[i] == x ==> crc[j] != x
  }

  /** When every header line occurs only once, no section holds the header
      that opens it: its lines all come strictly after that header. */
  lemma SectionOmitsItsHeader(crc: seq<string>)
    requires FindSections(crc).Success?
    requires AtMostOnce(crc, SkillsHeader) && AtMostOnce(crc, ExperienceHeader)
    requires AtMostOnce(crc, EducationHeader)
    ensures SkillsHeader !in FindSections(crc).value.skills
    ensures ExperienceHeader !in FindSections(crc).value.experience
    ensures EducationHeader !in FindSections(crc).value.education
  {
    var sk, ex, ed := FoundAt(crc);
    SliceAfterUnique(crc, sk, ex, SkillsHeader);
    SliceAfterUnique(crc, ex, ed, ExperienceHeader);
    SliceAfterUnique(crc, ed, |crc|, EducationHeader);
  }

  /** The lines strictly after the only occurrence of `x` hold no `x`. */
  lemma SliceAfterUnique(crc: seq<string>, p: nat, j: nat, x: string)
    requires p < |crc| && crc[p] == x && AtMostOnce(crc, x)
    ensures x !in Slice(crc, p + 1, j)
  {
    var s := Slice(crc, p + 1, j);
    forall k | 0 <= k < |s| ensures s[k] != x {
      assert s[k] == crc[p + 1 + k];
    }
  }

  /** When a header line precedes that of the header before it in `SECTIONS`
      order, Python's slice runs backwards and the section comes out empty. */
  lemma MisorderedSectionIsEmpty(crc: seq<string>)
    requires FindSections(crc).Success?
    ensures IndexOf(crc, ExperienceHeader).value < IndexOf(crc, SkillsHeader).value ==>
              FindSections(crc).value.skills == []
    ensures IndexOf(crc, EducationHeader).value < IndexOf(crc, ExperienceHeader).value ==>
              FindSections(crc).value.experience == []
  {
    var sk, ex, ed := FoundAt(crc);
  }

  /** Only the first skills header opens the section: a second copy of it is
      kept as an ordinary skills line. */
  lemma RepeatedHeaderStaysInSection()
    ensures var crc := [SkillsHeader, SkillsHeader, ExperienceHeader, EducationHeader];
      FindSections(crc) == Success(Document(SkillsHeader, ExperienceHeader, EducationHeader,
                                            [SkillsHeader], [], []))
  {
    var crc := [SkillsHeader, SkillsHeader, ExperienceHeader, EducationHeader];
    assert SkillsHeader != ExperienceHeader && SkillsHeader != EducationHeader
      && ExperienceHeader != EducationHeader;
    assert IndexOf(crc, SkillsHeader) == Some(0);
    assert IndexOf(crc, ExperienceHeader) == Some(2);
    assert IndexOf(crc, EducationHeader) == Some(3);
    var sk, ex, ed := FoundAt(crc);
    assert Slice(crc, sk + 1, ex) == [SkillsHeader];
  }
}
