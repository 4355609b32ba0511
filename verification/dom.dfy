/**
 * The rendered page as the extraction engine sees it, once every CSS-selector
 * lookup has been replaced by an already-classified node. A lookup that may
 * match nothing is an `Option`; a lookup the engine reads without a guard is a
 * plain value.
 */
module Dom {
  import opened Wrappers

  /** A field list (`div.PG9puc` leaves under a fields wrapper): the tag texts in document order. */
  type FieldTags = seq<string>

  /**
   * One child of the definitions section, told apart by the exact class name
   * of the child element.
   */
  datatype DefChild =
      /** class `CF8Iy RZhose`: fields standing before the next definition */
    | EarlyFields(tags: FieldTags)
      /** class `KWoJId`: a part-of-speech label, with its own optional field wrapper */
    | PartMarker(part: string, fields: Option<FieldTags>)
      /** class `eqNifb` (visible) or `trQcMc` (collapsed): one numbered sense */
    | DefEntry(no: string, fields: Option<FieldTags>, definition: string, example: Option<string>)
      /** any other class name: skipped */
    | Other

  /**
   * One row of a translation group: the part-of-speech label cell (read on
   * row 0 only), the visible translation cell and the collapsed one.
   */
  datatype TransRow = TransRow(partCell: Option<string>, visible: Option<string>, hidden: Option<string>)

  /** A `tbody` group of the translations table: its rows in document order. */
  type TransGroup = seq<TransRow>

  /** The input section: source text, optional phonetic, default translation. */
  datatype Input = Input(enText: string, enPhon: Option<string>, idText: string)

  /**
   * The bottom section. `defSection` is absent when the definitions section
   * is not there; `transTable` is absent when the translations wrapper is
   * missing, has no element children, or holds no translations table.
   */
  datatype Bottom = Bottom(defSection: Option<seq<DefChild>>, transTable: Option<seq<TransGroup>>)

  datatype Page = Page(input: Input, bottom: Option<Bottom>)

  /**
   * The places where the source dereferences a lookup that matched nothing
   * and the page script throws; here they end the extraction with a fault.
   */
  datatype Fault =
      /** a definition entry at this child index before any part-of-speech marker */
    | DefinitionBeforePartOfSpeech(child: nat)
      /** row 0 of this group has no part-of-speech label cell */
    | MissingPartOfSpeech(group: nat)
      /** this row has neither a visible nor a collapsed translation cell */
    | MissingTranslationCell(group: nat, row: nat)
}
