/** The normaliser (`clean_resume`): every line of the resume has its tabs,
    newlines, question marks and colons turned into spaces. */
module Normalizer {
  import opened ResumeTypes
  import opened PyBuiltins

  /** The characters the translation table names. */
  predicate Replaced(c: char) {
    c == '\t' || c == '\n' || c == '?' || c == ':'
  }

  /** The translation table: each replaced character goes to a space. */
  const TransMap: map<char, char> := map['\t' := ' ', '\n' := ' ', '?' := ' ', ':' := ' ']

  /** One line through the translation table: same length, every replaced
      character is a space at the same position, every other character is
      unchanged, and no replaced character is left. */
  function CleanLine(line: string): (r: string)
    ensures |r| == |line|
    ensures forall i :: 0 <= i < |line| ==> r[i] == (if Replaced(line[i]) then ' ' else line[i])
    ensures forall i :: 0 <= i < |r| ==> !Replaced(r[i])
  {
    Translate(line, TransMap)
  }

  /** `clean_resume`: the translation applied to every line, in order. The
      table is built from the first line, so an empty list fails. */
  function CleanResume(content: seq<string>): (r: Result<seq<string>, Error>)
    ensures r.Failure? <==> content == []
    ensures r.Failure? ==> r.error == EmptyResume
    ensures r.Success? ==> |r.value| == |content|
    ensures r.Success? ==> forall i :: 0 <= i < |content| ==> r.value[i] == CleanLine(content[i])
  {
    if content == [] then Failure(EmptyResume)
    else Success(seq(|content|, i requires 0 <= i < |content| => CleanLine(content[i])))
  }

  /** Cleaning a clean line changes nothing. */
  lemma CleanLineIdempotent(line: string)
    ensures CleanLine(CleanLine(line)) == CleanLine(line)
  {
    var once := CleanLine(line);
    assert forall i :: 0 <= i < |once| ==> CleanLine(once)[i] == once[i];
  }

  /** Cleaning the cleaned resume gives it back unchanged. */
  lemma CleanResumeIdempotent(content: seq<string>)
    requires CleanResume(content).Success?
    ensures CleanResume(CleanResume(content).value) == CleanResume(content)
  {
    var once := CleanResume(content).value;
    forall i | 0 <= i < |once| ensures CleanLine(once[i]) == once[i] {
      CleanLineIdempotent(content[i]);
    }
    assert CleanResume(once).value == once;
  }
}
