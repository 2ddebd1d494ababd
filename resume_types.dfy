/** Values shared by every stage of the resume extractor: the fixed header
    literals, the reference-request line, the failure taxonomy and the parsed
    document. */
module ResumeTypes {

  datatype Option<+T> = None | Some(value: T)

  datatype Result<+T, +E> = Success(value: T) | Failure(error: E)

  /** The outcome of an operation that only changes state. */
  datatype Outcome<+E> = Pass | Fail(error: E)

  /** The three section headers, in the order the document lists them.
      Each literal keeps the two trailing spaces the resume file carries. */
  const SkillsHeader: string := "SKILLS AND KNOWLEDGE  "
  const ExperienceHeader: string := "EXPERIENCE  "
  const EducationHeader: string := "EDUCATION  "
  const Sections: seq<string> := [SkillsHeader, ExperienceHeader, EducationHeader]

  /** The reference-request line, removed before the headers are located. */
  const References: string := "References Available Upon Request "

  /** Why a run produces no page.
      EmptyResume: the normaliser indexes the first line of an empty file.
      ReferencesNotFound: the reference-request line is absent.
      SectionNotFound: the first header literal, in `SECTIONS` order, that is absent. */
  datatype Error = EmptyResume | ReferencesNotFound | SectionNotFound(header: string)

  /** A parsed resume: the three header lines found and the lines under each. */
  datatype Document = Document(
    skillHead: string, expHead: string, eduHead: string,
    skills: seq<string>, experience: seq<string>, education: seq<string>)
  {
    /** The headers, in the order the page shows them. */
    function Headers(): seq<string> { [skillHead, expHead, eduHead] }

    /** The section bodies, in the same order as Headers(). */
    function Bodies(): seq<seq<string>> { [skills, experience, education] }
  }
}
