/** Options that change how output files are written. */
module Files {
  import Seqs

  /** An option value (a Go `int` enumeration). */
  type Option = int

  const WithPreExistingDirectory: Option := 0
  const WithOverwrite: Option := 1

  /** Whether `option` is among `options`; an empty list has none. */
  function HasOption(option: Option, options: seq<Option>): (r: bool)
    ensures r <==> option in options
    ensures options == [] ==> !r
  {
    if |options| == 0 then false else Seqs.Contains(options, option)
  }

  /** The two options are different values, so asking for one never finds the other. */
  lemma OptionsDistinct()
    ensures WithPreExistingDirectory != WithOverwrite
    ensures !HasOption(WithOverwrite, [WithPreExistingDirectory])
    ensures !HasOption(WithPreExistingDirectory, [WithOverwrite])
  {
  }

  // The option tests: present, absent, and an empty list.
  lemma HasOptionExamples()
    ensures HasOption(WithOverwrite, [WithPreExistingDirectory, WithOverwrite])
    ensures !HasOption(WithOverwrite, [WithPreExistingDirectory])
    ensures !HasOption(WithOverwrite, [])
  {
  }
}
