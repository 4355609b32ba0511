/**
 * The result assembler: the page-script body that reads the input section,
 * runs the definitions pass and the translations pass, and returns the
 * record, or `null` when the bottom section is missing.
 */
module Extraction {
  import opened Wrappers
  import opened Dom
  import Definitions
  import Translations

  /** `{ enText, enPhon, idText, defParts, transParts }` */
  datatype Record = Record(
    enText: string,
    enPhon: string,
    idText: string,
    defParts: seq<Definitions.DefPart>,
    transParts: seq<Translations.TransPart>)

  /**
   * `NotFound` is the script's `null`; `Malformed` stands for the places where
   * the script would throw on a lookup that matched nothing.
   */
  datatype Outcome = NotFound | Found(record: Record) | Malformed(fault: Fault)

  /** The children the definitions pass walks: none when the definitions section is missing. */
  function DefChildren(b: Bottom): seq<DefChild> {
    b.defSection.GetOr([])
  }

  function Extract(page: Page): Outcome {
    match page.bottom
    case None => NotFound
    case Some(b) =>
      match Definitions.Extract(DefChildren(b))
      case Failure(e) => Malformed(e)
      case Success(st) =>
        match Translations.Translations(b.transTable, page.input.idText, st.firstPart)
        case Failure(e) => Malformed(e)
        case Success(transParts) =>
          Found(Record(page.input.enText, page.input.enPhon.GetOr(""), page.input.idText, st.defParts, transParts))
  }

  /** The page script: definitions first, then translations. */
  method Scrape(page: Page) returns (o: Outcome)
    ensures o == Extract(page)
  {
    if page.bottom.None? {
      return NotFound;
    }
    var b := page.bottom.value;
    var enText := page.input.enText;
    var enPhon := page.input.enPhon.GetOr("");
    var idText := page.input.idText;
    var defs: Result<Definitions.DefState, Fault> := Success(Definitions.Start);
    if b.defSection.Some? {
      defs := Definitions.ScrapeDefinitions(b.defSection.value);
    }
    if defs.Failure? {
      return Malformed(defs.error);
    }
    var trans := Translations.ScrapeTranslations(b.transTable, idText, defs.value.firstPart);
    if trans.Failure? {
      return Malformed(trans.error);
    }
    return Found(Record(enText, enPhon, idText, defs.value.defParts, trans.value));
  }

  /** Not found exactly when the bottom section is missing; a missing definitions section alone is not enough. */
  lemma NotFoundIff(page: Page)
    ensures Extract(page) == NotFound <==> page.bottom.None?
  {
  }

  /**
   * A record comes back exactly when the bottom section is there, no
   * definition entry precedes every part-of-speech marker, and the
   * translations table, when there is one, is well formed.
   */
  lemma FoundIff(page: Page)
    ensures Extract(page).Found? <==>
      && page.bottom.Some?
      && Definitions.NoOrphanEntry(DefChildren(page.bottom.value))
      && (page.bottom.value.transTable.Some? ==> Translations.TableOk(page.bottom.value.transTable.value))
  {
    if page.bottom.Some? {
      var b := page.bottom.value;
      Definitions.ExtractSucceedsIff(DefChildren(b));
      if b.transTable.Some? {
        var gs := b.transTable.value;
        Translations.TransSucceedsIff(gs, |gs|, page.input.idText);
        assert gs[..|gs|] == gs;
      }
    }
  }

  /**
   * What a record holds: the input texts (the phonetic `""` when absent),
   * one definition group per part-of-speech marker in order, every
   * definition entry in document order, and, before each marker, exactly
   * the definitions of the entries before it in the groups before its own.
   */
  lemma FoundRecord(page: Page)
    requires Extract(page).Found?
    ensures var r := Extract(page).record;
      var cs := DefChildren(page.bottom.value);
      && r.enText == page.input.enText
      && r.idText == page.input.idText
      && r.enPhon == page.input.enPhon.GetOr("")
      && Definitions.Parts(r.defParts) == Definitions.Markers(cs)
      && Definitions.Flatten(r.defParts) == Definitions.Expected(cs)
      && forall i | 0 <= i < |cs| && cs[i].PartMarker? ::
           && |Definitions.Markers(cs[..i])| < |r.defParts|
           && Definitions.Flatten(r.defParts[..|Definitions.Markers(cs[..i])|]) == Definitions.Expected(cs[..i])
  {
    var cs := DefChildren(page.bottom.value);
    Definitions.GroupsFollowMarkers(cs);
    Definitions.DefinitionsInDocumentOrder(cs);
    forall i | 0 <= i < |cs| && cs[i].PartMarker?
      ensures |Definitions.Markers(cs[..i])| < |Definitions.Extract(cs).value.defParts|
      ensures Definitions.Flatten(Definitions.Extract(cs).value.defParts[..|Definitions.Markers(cs[..i])|])
           == Definitions.Expected(cs[..i])
    {
      Definitions.GroupsBeforeMarker(cs, i);
    }
  }

  /**
   * Without a translations table there is exactly one translation group: the
   * first non-empty part-of-speech label (or `""`), holding only the default
   * translation.
   */
  lemma NoTableFallback(page: Page)
    requires Extract(page).Found? && page.bottom.value.transTable.None?
    ensures Extract(page).record.transParts == [Translations.TransPart(
      Definitions.FirstNonEmpty(Definitions.Markers(DefChildren(page.bottom.value))),
      [page.input.idText])]
  {
    Definitions.GroupsFollowMarkers(DefChildren(page.bottom.value));
  }

  /**
   * A bottom section without a definitions section still gives a record,
   * with no definition groups.
   */
  lemma MissingDefinitionsStillFound(page: Page)
    requires page.bottom.Some? && page.bottom.value.defSection.None?
    requires page.bottom.value.transTable.Some? ==> Translations.TableOk(page.bottom.value.transTable.value)
    ensures Extract(page).Found?
    ensures Extract(page).record.defParts == []
  {
    FoundIff(page);
  }

  // ---------------------------------------------------------------------
  // Worked cases

  const Cat := DefEntry("1", None, "a domesticated carnivorous mammal", Some("the cat sat on the mat"))

  function CatPage(idText: string, table: Option<seq<TransGroup>>): Page {
    Page(Input("cat", None, idText), Some(Bottom(Some([PartMarker("Noun", None), Cat]), table)))
  }

  const CatDefParts := [Definitions.DefPart("Noun",
    [Definitions.Definition("1", "a domesticated carnivorous mammal", "the cat sat on the mat")])]

  lemma CatDefinitions()
    ensures Definitions.Extract([PartMarker("Noun", None), Cat]) == Success(Definitions.DefState("", CatDefParts, "Noun"))
  {
    var cs := [PartMarker("Noun", None), Cat];
    var s1 := Definitions.DefState("", [Definitions.DefPart("Noun", [])], "Noun");
    Definitions.MarkerStep([], Definitions.Start, "Noun", None);
    assert [] + [PartMarker("Noun", None)] == cs[..1];
    var r := Definitions.Extract(cs[..1]);
    assert r.value.earlyFields == "" && r.value.firstPart == "Noun";
    assert r.value == s1;
    Definitions.EntryStep(cs[..1], s1, Cat.no, Cat.fields, Cat.definition, Cat.example);
    assert cs[..1] + [Cat] == cs;
    assert "" + Definitions.LocalFields(None) + Cat.definition == Cat.definition;
    var r2 := Definitions.Extract(cs);
    assert |r2.value.defParts| == 1;
    assert r2.value.defParts[0] == CatDefParts[0];
    assert r2.value.defParts == CatDefParts;
  }

  /** One noun sense, no table: the default translation alone, under the noun label. */
  lemma CatWithoutTable()
    ensures Extract(CatPage("kucing", None))
         == Found(Record("cat", "", "kucing", CatDefParts, [Translations.TransPart("Noun", ["kucing"])]))
  {
    CatDefinitions();
  }

  /** A table whose first row equals the default translation: no duplicate. */
  lemma CatTableAgrees()
    ensures var table := [[TransRow(Some("Noun"), Some("kucing"), None), TransRow(None, Some("meong"), None)]];
      Extract(CatPage("kucing", Some(table))).Found?
      && Extract(CatPage("kucing", Some(table))).record.transParts == [Translations.TransPart("Noun", ["kucing", "meong"])]
  {
    CatDefinitions();
    var rows := [TransRow(Some("Noun"), Some("kucing"), None), TransRow(None, Some("meong"), None)];
    var want: seq<Translations.TransPart> := [Translations.TransPart("Noun", ["kucing", "meong"])];
    var none: Result<seq<string>, Fault> := Success([]);
    assert Translations.Rest(rows, 1, 0) == none;
    assert Translations.CellText(rows[1]) == Some("meong");
    assert none.value + ["meong"] == ["meong"];
    var rest: Result<seq<string>, Fault> := Success(["meong"]);
    assert Translations.Rest(rows, 2, 0) == rest;
    assert Translations.CellText(rows[0]) == Some("kucing");
    assert Translations.Reconcile(0, "kucing", "kucing") + rest.value == want[0].translations;
    var group: Result<Option<Translations.TransPart>, Fault> := Success(Some(want[0]));
    assert Translations.GroupOut(rows, 0, "kucing") == group;
    var zero: Result<seq<Translations.TransPart>, Fault> := Success([]);
    assert Translations.TransFrom([rows], 0, "kucing") == zero;
    assert [rows][0] == rows;
    assert zero.value + want == want;
    var all: Result<seq<Translations.TransPart>, Fault> := Success(want);
    assert Translations.TransFrom([rows], 1, "kucing") == all;
  }

  /** A table whose first row differs from the default translation: the default goes first. */
  lemma CatTableDiffers()
    ensures var table := [[TransRow(Some("Noun"), None, Some("kucing"))]];
      Extract(CatPage("kucing betina", Some(table))).Found?
      && Extract(CatPage("kucing betina", Some(table))).record.transParts == [Translations.TransPart("Noun", ["kucing betina", "kucing"])]
  {
    CatDefinitions();
    var rows := [TransRow(Some("Noun"), None, Some("kucing"))];
    var want: seq<Translations.TransPart> := [Translations.TransPart("Noun", ["kucing betina", "kucing"])];
    var none: Result<seq<string>, Fault> := Success([]);
    assert Translations.Rest(rows, 1, 0) == none;
    assert Translations.CellText(rows[0]) == Some("kucing");
    assert Translations.Reconcile(0, "kucing", "kucing betina") + none.value == want[0].translations;
    var group: Result<Option<Translations.TransPart>, Fault> := Success(Some(want[0]));
    assert Translations.GroupOut(rows, 0, "kucing betina") == group;
    var zero: Result<seq<Translations.TransPart>, Fault> := Success([]);
    assert Translations.TransFrom([rows], 0, "kucing betina") == zero;
    assert [rows][0] == rows;
    assert zero.value + want == want;
    var all: Result<seq<Translations.TransPart>, Fault> := Success(want);
    assert Translations.TransFrom([rows], 1, "kucing betina") == all;
  }

  /** A definition entry before any marker ends the extraction with a fault rather than a record. */
  lemma OrphanEntryIsMalformed()
    ensures Extract(Page(Input("cat", None, "kucing"), Some(Bottom(Some([Cat]), None))))
         == Malformed(DefinitionBeforePartOfSpeech(0))
  {
    assert [Cat][..0] == [];
    var bad: Result<Definitions.DefState, Fault> := Failure(DefinitionBeforePartOfSpeech(0));
    assert Definitions.Extract([Cat]) == bad;
  }
}
