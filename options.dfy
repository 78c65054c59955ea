/**
 * Decode options: the `B2TOptions` struct of native_src/library.h and its
 * `parse` member of native_src/library.cpp.
 */
module Options {
  import opened Wrappers

  /** The value of a `B2TOptions` struct. */
  datatype DecodeOptions = DecodeOptions(binariesAsBytes: bool, atomsAsStrings: bool)

  const BinariesAsBytesKey: string := "binaries_as_bytes"
  const AtomsAsStringsKey: string := "atoms_as_strings"

  /** The field initialisers of `B2TOptions`. */
  function Defaults(): (o: DecodeOptions)
    ensures !o.binariesAsBytes && !o.atomsAsStrings
  {
    DecodeOptions(false, false)
  }

  /**
   * What `parse` leaves in the struct when it starts from `o`: each flag whose
   * key is in the dictionary takes the dictionary's value, every other flag
   * keeps its value.
   */
  function Parsed(o: DecodeOptions, dict: map<string, bool>): (r: DecodeOptions)
    ensures BinariesAsBytesKey in dict && AtomsAsStringsKey in dict ==>
      r == DecodeOptions(dict[BinariesAsBytesKey], dict[AtomsAsStringsKey])
    ensures BinariesAsBytesKey !in dict && AtomsAsStringsKey !in dict ==> r == o
  {
    DecodeOptions(
      if BinariesAsBytesKey in dict then dict[BinariesAsBytesKey] else o.binariesAsBytes,
      if AtomsAsStringsKey in dict then dict[AtomsAsStringsKey] else o.atomsAsStrings)
  }

  /** The options of a call whose optional argument is absent or None, or a dictionary. */
  function FromArgument(arg: Option<map<string, bool>>): (o: DecodeOptions)
    ensures o.binariesAsBytes == (arg.Some? && BinariesAsBytesKey in arg.value && arg.value[BinariesAsBytesKey])
    ensures o.atomsAsStrings == (arg.Some? && AtomsAsStringsKey in arg.value && arg.value[AtomsAsStringsKey])
  {
    match arg
    case None => Defaults()
    case Some(dict) => Parsed(Defaults(), dict)
  }

  lemma ParsedSetsPresentKeys(o: DecodeOptions, dict: map<string, bool>)
    ensures BinariesAsBytesKey in dict ==> Parsed(o, dict).binariesAsBytes == dict[BinariesAsBytesKey]
    ensures AtomsAsStringsKey in dict ==> Parsed(o, dict).atomsAsStrings == dict[AtomsAsStringsKey]
  {
  }

  lemma ParsedKeepsAbsentKeys(o: DecodeOptions, dict: map<string, bool>)
    ensures BinariesAsBytesKey !in dict ==> Parsed(o, dict).binariesAsBytes == o.binariesAsBytes
    ensures AtomsAsStringsKey !in dict ==> Parsed(o, dict).atomsAsStrings == o.atomsAsStrings
  {
  }

  /** A key other than the two recognised ones has no effect. */
  lemma ParsedIgnoresOtherKeys(o: DecodeOptions, dict: map<string, bool>, key: string, value: bool)
    requires key != BinariesAsBytesKey && key != AtomsAsStringsKey
    ensures Parsed(o, dict[key := value]) == Parsed(o, dict)
  {
  }

  /** Parsing the same dictionary again changes nothing. */
  lemma ParsedIdempotent(o: DecodeOptions, dict: map<string, bool>)
    ensures Parsed(Parsed(o, dict), dict) == Parsed(o, dict)
  {
  }

  /** The struct itself, whose `parse` assigns its fields in place. */
  class B2TOptions {
    var binariesAsBytes: bool
    var atomsAsStrings: bool

    function Value(): DecodeOptions
      reads this
    {
      DecodeOptions(binariesAsBytes, atomsAsStrings)
    }

    /** Default construction: both flags false. */
    constructor ()
      ensures Value() == Defaults()
    {
      binariesAsBytes := false;
      atomsAsStrings := false;
    }

    /** `B2TOptions::parse`: overwrite a flag only when its key is present. */
    method Parse(dict: map<string, bool>)
      modifies this
      ensures binariesAsBytes == if BinariesAsBytesKey in dict then dict[BinariesAsBytesKey] else old(binariesAsBytes)
      ensures atomsAsStrings == if AtomsAsStringsKey in dict then dict[AtomsAsStringsKey] else old(atomsAsStrings)
      ensures Value() == Parsed(old(Value()), dict)
    {
      if BinariesAsBytesKey in dict {
        binariesAsBytes := dict[BinariesAsBytesKey];
      }
      if AtomsAsStringsKey in dict {
        atomsAsStrings := dict[AtomsAsStringsKey];
      }
    }
  }
}
