/** The fixed set of lexica the tool knows, their display names, and the
    shape of a loaded lexicon. */
module Lexica {

  /** The five lexicon identifiers (the fields of the Lexica tuple). */
  datatype Lexicon = Autenreith | Lsj | Abbott | Short | Rouse

  /** A loaded lexicon: headword to definition. */
  type Table = map<string, string>

  /** One parsed line of a lexicon file. */
  datatype Entry = Entry(headword: string, definition: string)

  /** NAME_MAPPINGS: the short label shown for each lexicon. */
  function DisplayName(t: Lexicon): string {
    match t
    case Autenreith => "Aut"
    case Lsj => "LSJ"
    case Short => "ShortDefs"
    case Abbott => "A-S"
    case Rouse => "Rouse"
  }

  /** Display names tell the lexica apart: no two share a label. */
  lemma DisplayNameInjective(a: Lexicon, b: Lexicon)
    ensures DisplayName(a) == DisplayName(b) ==> a == b
  {
  }
}
