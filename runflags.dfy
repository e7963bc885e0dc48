/**
 * The installer's run-mode switches: each `RunFlag` is a command-line
 * switch with a default, and giving the switch sets it.
 */
module RunFlags {
  import opened Text

  /** The modes the option checks consult. */
  datatype RunMode = RunMode(force: bool, yes: bool, wizard: bool)

  /**
   * A run-mode flag.  `forcesOn` marks the wizard flag, whose switch turns
   * the mode on instead of away from its default.
   */
  class RunFlag {
    const optionName: string
    const variableName: string
    const default: bool
    const forcesOn: bool
    var mode: bool

    /** A flag starts at its default; its variable name spells '-' as '_'. */
    constructor(optionName: string, default: bool, forcesOn: bool)
      ensures this.optionName == optionName && this.default == default && this.forcesOn == forcesOn
      ensures mode == default
      ensures variableName == ReplaceAll(optionName, "-", "_")
    {
      this.optionName := optionName;
      this.variableName := ReplaceAll(optionName, "-", "_");
      this.default := default;
      this.forcesOn := forcesOn;
      mode := default;
    }

    /** The switch was given: the wizard flag turns on, others leave their default. */
    method OptCallback()
      modifies this
      ensures mode == (forcesOn || !default)
    {
      if forcesOn {
        mode := true;
      } else {
        mode := !default;
      }
    }
  }

  /** The variable name for a switch: its characters, with '_' for every '-'. */
  lemma VariableName(optionName: string)
    ensures |ReplaceAll(optionName, "-", "_")| == |optionName|
    ensures '-' !in ReplaceAll(optionName, "-", "_")
    ensures forall i | 0 <= i < |optionName| && optionName[i] != '-' :: ReplaceAll(optionName, "-", "_")[i] == optionName[i]
  {
    ReplaceChar(optionName, '-', '_');
    assert "-" == ['-'] && "_" == ['_'];
  }
}
