/**
 * The translation extractor: the fallback group when there is no
 * translations table, otherwise one group per non-empty `tbody`, with the
 * default translation reconciled into the first one.
 */
module Translations {
  import opened Wrappers
  import opened Dom

  /** `{part, translations}` */
  datatype TransPart = TransPart(part: string, translations: seq<string>)

  /**
   * The translation cell of a row: the visible cell when there is one, the
   * collapsed cell only when the visible one is absent; never both.
   */
  function CellText(row: TransRow): Option<string> {
    if row.visible.Some? then row.visible else row.hidden
  }

  /**
   * The start of a group from its row-0 text: the default translation is
   * put ahead of it in the group of index 0 only, and only when it differs.
   */
  function Reconcile(group: nat, first: string, idText: string): seq<string> {
    if group == 0 && first != idText then [idText, first] else [first]
  }

  /** The texts of rows `1 .. j-1` of a group, or the first row without a cell. */
  function Rest(rows: TransGroup, j: nat, group: nat): Result<seq<string>, Fault>
    requires 1 <= j <= |rows|
  {
    if j == 1 then Success([])
    else
      match Rest(rows, j - 1, group)
      case Failure(e) => Failure(e)
      case Success(ts) =>
        match CellText(rows[j - 1])
        case None => Failure(MissingTranslationCell(group, j - 1))
        case Some(t) => Success(ts + [t])
  }

  /** What the `tbody` of index `group` contributes: nothing when it has no rows. */
  function GroupOut(rows: TransGroup, group: nat, idText: string): Result<Option<TransPart>, Fault> {
    if rows == [] then Success(None)
    else if rows[0].partCell.None? then Failure(MissingPartOfSpeech(group))
    else
      match CellText(rows[0])
      case None => Failure(MissingTranslationCell(group, 0))
      case Some(first) =>
        match Rest(rows, |rows|, group)
        case Failure(e) => Failure(e)
        case Success(ts) => Success(Some(TransPart(rows[0].partCell.value, Reconcile(group, first, idText) + ts)))
  }

  /** The groups contributed by the first `n` `tbody` groups, in order. */
  function TransFrom(groups: seq<TransGroup>, n: nat, idText: string): Result<seq<TransPart>, Fault>
    requires n <= |groups|
  {
    if n == 0 then Success([])
    else
      match TransFrom(groups, n - 1, idText)
      case Failure(e) => Failure(e)
      case Success(parts) =>
        match GroupOut(groups[n - 1], n - 1, idText)
        case Failure(e) => Failure(e)
        case Success(None) => Success(parts)
        case Success(Some(p)) => Success(parts + [p])
  }

  /** `transParts`: the fallback group without a table, the table's groups otherwise. */
  function Translations(table: Option<seq<TransGroup>>, idText: string, firstPart: string): Result<seq<TransPart>, Fault> {
    match table
    case None => Success([TransPart(firstPart, [idText])])
    case Some(groups) => TransFrom(groups, |groups|, idText)
  }

  lemma {:induction false} RestFailureIsFinal(rows: TransGroup, j: nat, k: nat, group: nat)
    requires 1 <= j <= k <= |rows| && Rest(rows, j, group).Failure?
    ensures Rest(rows, k, group) == Rest(rows, j, group)
    decreases k
  {
    if j < k {
      RestFailureIsFinal(rows, j, k - 1, group);
    }
  }

  lemma {:induction false} TransFailureIsFinal(groups: seq<TransGroup>, i: nat, k: nat, idText: string)
    requires i <= k <= |groups| && TransFrom(groups, i, idText).Failure?
    ensures TransFrom(groups, k, idText) == TransFrom(groups, i, idText)
    decreases k
  {
    if i < k {
      TransFailureIsFinal(groups, i, k - 1, idText);
    }
  }

  /**
   * The loops over the `tbody` groups and their rows, opening a group on
   * row 0 and pushing into `transParts[transPartsIndex]` in place.
   */
  method ScrapeTranslations(table: Option<seq<TransGroup>>, idText: string, firstPart: string)
    returns (r: Result<seq<TransPart>, Fault>)
    ensures r == Translations(table, idText, firstPart)
  {
    var transParts: seq<TransPart> := [];
    var transPartsIndex := -1;
    if table.None? {
      transPartsIndex := transPartsIndex + 1;
      transParts := transParts + [TransPart(firstPart, [idText])];
      assert transParts == [TransPart(firstPart, [idText])];
      return Success(transParts);
    }
    var transGroups := table.value;
    for i := 0 to |transGroups|
      invariant TransFrom(transGroups, i, idText) == Success(transParts)
      invariant transPartsIndex == |transParts| - 1
    {
      var transGroup := transGroups[i];
      ghost var before := transParts;
      for j := 0 to |transGroup|
        invariant j == 0 ==> transParts == before
        invariant transPartsIndex == |transParts| - 1
        invariant 0 < j ==>
          && transGroup[0].partCell.Some?
          && CellText(transGroup[0]).Some?
          && Rest(transGroup, j, i).Success?
          && transParts == before + [TransPart(transGroup[0].partCell.value,
               Reconcile(i, CellText(transGroup[0]).value, idText) + Rest(transGroup, j, i).value)]
      {
        var child := transGroup[j];
        if j == 0 {
          if child.partCell.None? {
            TransFailureIsFinal(transGroups, i + 1, |transGroups|, idText);
            return Failure(MissingPartOfSpeech(i));
          }
          transPartsIndex := transPartsIndex + 1;
          var part := child.partCell.value;
          transParts := transParts + [TransPart(part, [])];
          var firstTrans := child.visible;
          if firstTrans.None? {
            firstTrans := child.hidden;
          }
          if firstTrans.None? {
            TransFailureIsFinal(transGroups, i + 1, |transGroups|, idText);
            return Failure(MissingTranslationCell(i, 0));
          }
          var open := transParts[transPartsIndex];
          ReplaceLast(before, TransPart(part, []));
          assert CellText(child) == firstTrans && open == TransPart(part, []);
          if i == 0 && firstTrans.value != idText {
            transParts := transParts[transPartsIndex := TransPart(open.part, open.translations + [idText, firstTrans.value])];
            assert open.translations + [idText, firstTrans.value] == Reconcile(i, firstTrans.value, idText);
          } else {
            transParts := transParts[transPartsIndex := TransPart(open.part, open.translations + [firstTrans.value])];
            assert open.translations + [firstTrans.value] == Reconcile(i, firstTrans.value, idText);
          }
          OpenGroup(transGroup, i);
          assert Reconcile(i, firstTrans.value, idText) + [] == Reconcile(i, firstTrans.value, idText);
        } else {
          var trans := child.visible;
          if trans.None? {
            trans := child.hidden;
          }
          if trans.None? {
            RestFailureIsFinal(transGroup, j + 1, |transGroup|, i);
            TransFailureIsFinal(transGroups, i + 1, |transGroups|, idText);
            return Failure(MissingTranslationCell(i, j));
          }
          var open := transParts[transPartsIndex];
          ReplaceLast(before, open);
          transParts := transParts[transPartsIndex := TransPart(open.part, open.translations + [trans.value])];
          ExtendGroup(transGroup, i, j, idText);
        }
      }
      CloseGroup(transGroups, i, idText);
    }
    return Success(transParts);
  }

  // Steps of the table pass, one row or one `tbody` at a time.

  /** Replacing the open (last) group leaves the groups before it alone. */
  lemma ReplaceLast(before: seq<TransPart>, open: TransPart)
    ensures forall p :: (before + [open])[|before| := p] == before + [p]
  {
    forall p ensures (before + [open])[|before| := p] == before + [p] {
      assert (before + [open])[|before| := p][..|before|] == before;
    }
  }

  /** Row 0 opens the group: no text of a later row yet. */
  lemma OpenGroup(rows: TransGroup, group: nat)
    requires rows != []
    ensures Rest(rows, 1, group) == Success([])
  {
  }

  /** Row `j` (after row 0) appends its text to the open group. */
  lemma ExtendGroup(rows: TransGroup, group: nat, j: nat, idText: string)
    requires 1 <= j < |rows| && CellText(rows[0]).Some? && CellText(rows[j]).Some?
    requires Rest(rows, j, group).Success?
    ensures Rest(rows, j + 1, group) == Success(Rest(rows, j, group).value + [CellText(rows[j]).value])
    ensures forall ts: seq<string> ::
      ts == Reconcile(group, CellText(rows[0]).value, idText) + Rest(rows, j, group).value ==>
      ts + [CellText(rows[j]).value] == Reconcile(group, CellText(rows[0]).value, idText) + Rest(rows, j + 1, group).value
  {
  }

  /** After its rows, a `tbody` has contributed exactly its `GroupOut`. */
  lemma CloseGroup(groups: seq<TransGroup>, i: nat, idText: string)
    requires i < |groups| && TransFrom(groups, i, idText).Success?
    requires groups[i] != [] ==>
      && groups[i][0].partCell.Some? && CellText(groups[i][0]).Some?
      && Rest(groups[i], |groups[i]|, i).Success?
    ensures TransFrom(groups, i + 1, idText) == Success(TransFrom(groups, i, idText).value +
      (if groups[i] == [] then []
       else [TransPart(groups[i][0].partCell.value,
               Reconcile(i, CellText(groups[i][0]).value, idText) + Rest(groups[i], |groups[i]|, i).value)]))
  {
    var parts := TransFrom(groups, i, idText).value;
    assert parts + [] == parts;
  }

  // ---------------------------------------------------------------------
  // Reference definitions

  /** The translation text of every row of a group, `""` for a row without a cell. */
  function Texts(rows: TransGroup): (r: seq<string>)
    ensures |r| == |rows|
  {
    seq(|rows|, j requires 0 <= j < |rows| => CellText(rows[j]).GetOr(""))
  }

  /** Every row of the group has a translation cell, and row 0 has a part-of-speech label. */
  predicate GroupOk(rows: TransGroup) {
    rows == [] || (rows[0].partCell.Some? && forall j | 0 <= j < |rows| :: CellText(rows[j]).Some?)
  }

  predicate TableOk(groups: seq<TransGroup>) {
    forall i | 0 <= i < |groups| :: GroupOk(groups[i])
  }

  /** The number of `tbody` groups that have at least one row. */
  function CountNonEmpty(groups: seq<TransGroup>): (r: nat)
    ensures r <= |groups|
  {
    if groups == [] then 0
    else CountNonEmpty(groups[..|groups| - 1]) + (if groups[|groups| - 1] == [] then 0 else 1)
  }

  /**
   * The group a well-formed non-empty `tbody` of index `group` should give:
   * labelled by row 0, holding every row's text in order, with the default
   * translation ahead of them when this is the group of index 0 and its
   * row-0 text differs from it.
   */
  function ExpectedGroup(rows: TransGroup, group: nat, idText: string): (p: TransPart)
    requires rows != [] && rows[0].partCell.Some?
    ensures |p.translations| == |rows| + (if group == 0 && Texts(rows)[0] != idText then 1 else 0)
    ensures group != 0 ==> p.translations == Texts(rows)
  {
    TransPart(rows[0].partCell.value, (if group == 0 && Texts(rows)[0] != idText then [idText] else []) + Texts(rows))
  }

  // ---------------------------------------------------------------------
  // Properties of the pass

  lemma {:induction false} RestMeaning(rows: TransGroup, j: nat, group: nat)
    requires 1 <= j <= |rows|
    ensures Rest(rows, j, group).Success? <==> (forall k | 1 <= k < j :: CellText(rows[k]).Some?)
    ensures Rest(rows, j, group).Success? ==> Rest(rows, j, group).value == Texts(rows)[1..j]
    decreases j
  {
    if j > 1 {
      RestMeaning(rows, j - 1, group);
      assert Texts(rows)[1..j] == Texts(rows)[1..j - 1] + [Texts(rows)[j - 1]];
    }
  }

  lemma GroupOutMeaning(rows: TransGroup, group: nat, idText: string)
    ensures GroupOut(rows, group, idText).Success? <==> GroupOk(rows)
    ensures rows == [] ==> GroupOut(rows, group, idText) == Success(None)
    ensures rows != [] && GroupOk(rows) ==> GroupOut(rows, group, idText) == Success(Some(ExpectedGroup(rows, group, idText)))
  {
    if rows != [] {
      RestMeaning(rows, |rows|, group);
      if GroupOk(rows) {
        var t := Texts(rows);
        assert CellText(rows[0]).value == t[0];
        assert t == [t[0]] + t[1..];
        var pre: seq<string> := if group == 0 && t[0] != idText then [idText] else [];
        assert Reconcile(group, t[0], idText) + t[1..] == pre + t;
        assert t[1..|rows|] == t[1..];
        assert Rest(rows, |rows|, group) == Success(t[1..]);
        assert GroupOut(rows, group, idText) == Success(Some(TransPart(rows[0].partCell.value, Reconcile(group, t[0], idText) + t[1..])));
      } else if rows[0].partCell.Some? && CellText(rows[0]).Some? {
        var j :| 0 <= j < |rows| && CellText(rows[j]).None?;
        assert 1 <= j;
      }
    }
  }

  /** The table pass fails exactly when some `tbody` is malformed. */
  lemma {:induction false} TransSucceedsIff(groups: seq<TransGroup>, n: nat, idText: string)
    requires n <= |groups|
    ensures TransFrom(groups, n, idText).Success? <==> TableOk(groups[..n])
    decreases n
  {
    if n > 0 {
      TransSucceedsIff(groups, n - 1, idText);
      GroupOutMeaning(groups[n - 1], n - 1, idText);
      assert groups[..n] == groups[..n - 1] + [groups[n - 1]];
      assert TableOk(groups[..n]) <==> TableOk(groups[..n - 1]) && GroupOk(groups[n - 1]);
    }
  }

  /** One output group per `tbody` group that has rows. */
  lemma {:induction false} TransGroupCount(groups: seq<TransGroup>, n: nat, idText: string)
    requires n <= |groups| && TransFrom(groups, n, idText).Success?
    ensures |TransFrom(groups, n, idText).value| == CountNonEmpty(groups[..n])
    decreases n
  {
    if n > 0 {
      TransGroupCount(groups, n - 1, idText);
      GroupOutMeaning(groups[n - 1], n - 1, idText);
      assert groups[..n][..n - 1] == groups[..n - 1];
    }
  }

  /** A later `tbody` only appends: the groups of the first `m` are kept as they were. */
  lemma {:induction false} TransPrefix(groups: seq<TransGroup>, m: nat, n: nat, idText: string)
    requires m <= n <= |groups| && TransFrom(groups, n, idText).Success?
    ensures TransFrom(groups, m, idText).Success?
    ensures TransFrom(groups, m, idText).value <= TransFrom(groups, n, idText).value
    decreases n
  {
    if m < n {
      TransPrefix(groups, m, n - 1, idText);
    }
  }

  /**
   * When every `tbody` has rows, group `k` of the output is exactly the
   * expected group of `tbody` `k`: as many groups as `tbody` groups, each
   * holding its rows' texts, with reconciliation in group 0 only.
   */
  lemma {:induction false} TransGroupsPointwise(groups: seq<TransGroup>, n: nat, idText: string)
    requires n <= |groups| && TransFrom(groups, n, idText).Success?
    requires forall i | 0 <= i < |groups| :: groups[i] != []
    ensures |TransFrom(groups, n, idText).value| == n
    ensures forall k | 0 <= k < n ::
      && GroupOk(groups[k])
      && groups[k][0].partCell.Some?
      && TransFrom(groups, n, idText).value[k] == ExpectedGroup(groups[k], k, idText)
    decreases n
  {
    if n > 0 {
      TransGroupsPointwise(groups, n - 1, idText);
      GroupOutMeaning(groups[n - 1], n - 1, idText);
    }
  }

  /**
   * When the first `tbody` has rows, the default translation is the first
   * text of the first group, put there once by reconciliation, followed by
   * every row text of that `tbody`, without its row-0 text when that text
   * equals it. A later row equal to the default still repeats it
   * (`DefaultRepeatedByLaterRow`).
   */
  lemma DefaultTranslationKept(groups: seq<TransGroup>, idText: string)
    requires |groups| > 0 && groups[0] != []
    requires TransFrom(groups, |groups|, idText).Success?
    ensures var parts := TransFrom(groups, |groups|, idText).value;
      && |parts| > 0
      && |parts[0].translations| > 0
      && parts[0].translations[0] == idText
      && parts[0].translations[1..] == (if Texts(groups[0])[0] != idText then Texts(groups[0]) else Texts(groups[0])[1..])
  {
    TransPrefix(groups, 1, |groups|, idText);
    GroupOutMeaning(groups[0], 0, idText);
    var p := ExpectedGroup(groups[0], 0, idText);
    assert TransFrom(groups, 1, idText).value == [p];
  }

  /**
   * Reconciliation looks at row 0 only: when row 1 repeats the default
   * translation, the first group starts with two copies of it.
   */
  lemma DefaultRepeatedByLaterRow()
    ensures var rows := [TransRow(Some("noun"), Some("kucing"), None), TransRow(None, Some("kucing"), None)];
      TransFrom([rows], 1, "kucing") == Success([TransPart("noun", ["kucing", "kucing"])])
  {
    var rows := [TransRow(Some("noun"), Some("kucing"), None), TransRow(None, Some("kucing"), None)];
    var groups: seq<TransGroup> := [rows];
    var none: seq<string> := [];
    assert Rest(rows, 1, 0) == Success(none);
    assert CellText(rows[1]) == Some("kucing");
    assert none + ["kucing"] == ["kucing"];
    assert Rest(rows, 2, 0) == Success(["kucing"]);
    assert CellText(rows[0]) == Some("kucing");
    assert Reconcile(0, "kucing", "kucing") == ["kucing"];
    assert |rows| == 2 && rows[0].partCell == Some("noun");
    assert Reconcile(0, "kucing", "kucing") + ["kucing"] == ["kucing", "kucing"];
    assert GroupOut(rows, 0, "kucing") == Success(Some(TransPart("noun", ["kucing", "kucing"])));
    var parts: seq<TransPart> := [];
    assert TransFrom(groups, 0, "kucing") == Success(parts);
    assert parts + [TransPart("noun", ["kucing", "kucing"])] == [TransPart("noun", ["kucing", "kucing"])];
  }

  /** A table none of whose `tbody` groups has rows gives no group at all, not even the default translation. */
  lemma {:induction false} EmptyGroupsGiveNothing(groups: seq<TransGroup>, n: nat, idText: string)
    requires n <= |groups| && forall i | 0 <= i < |groups| :: groups[i] == []
    ensures TransFrom(groups, n, idText) == Success([])
    decreases n
  {
    if n > 0 {
      EmptyGroupsGiveNothing(groups, n - 1, idText);
    }
  }

  /**
   * Where a `tbody` with rows lands: its group is the one after the groups
   * of the non-empty `tbody` groups before it, and it is the expected group.
   */
  lemma GroupAt(groups: seq<TransGroup>, n: nat, idText: string, k: nat)
    requires n <= |groups| && TransFrom(groups, n, idText).Success? && k < n && groups[k] != []
    ensures GroupOk(groups[k]) && groups[k][0].partCell.Some?
    ensures CountNonEmpty(groups[..k]) < |TransFrom(groups, n, idText).value|
    ensures TransFrom(groups, n, idText).value[CountNonEmpty(groups[..k])] == ExpectedGroup(groups[k], k, idText)
  {
    TransPrefix(groups, k, n, idText);
    TransPrefix(groups, k + 1, n, idText);
    TransGroupCount(groups, k, idText);
    GroupOutMeaning(groups[k], k, idText);
    TransSucceedsIff(groups, k + 1, idText);
    assert groups[..k + 1][k] == groups[k];
  }

  /**
   * The visible cell wins: in an accepted table, the text that the group of
   * `tbody` `k` holds for row `j` (after the default translation when it was
   * put ahead) is the visible cell's text whenever that cell exists, and the
   * collapsed cell's text only when it does not.
   */
  lemma VisibleCellPreferred(groups: seq<TransGroup>, idText: string, k: nat, j: nat)
    requires TransFrom(groups, |groups|, idText).Success?
    requires k < |groups| && j < |groups[k]|
    ensures var parts := TransFrom(groups, |groups|, idText).value;
      var at := CountNonEmpty(groups[..k]);
      var ahead := if k == 0 && Texts(groups[0])[0] != idText then 1 else 0;
      var row := groups[k][j];
      && at < |parts|
      && ahead + j < |parts[at].translations|
      && (row.visible.Some? ==> parts[at].translations[ahead + j] == row.visible.value)
      && (row.visible.None? ==> row.hidden.Some? && parts[at].translations[ahead + j] == row.hidden.value)
  {
    GroupAt(groups, |groups|, idText, k);
    assert CellText(groups[k][j]).Some?;
  }

  /**
   * When `tbody` 0 has no rows, the default translation is put ahead of no
   * group: every group comes from some later `tbody` and holds exactly its
   * rows' texts.
   */
  lemma {:induction false} FirstTbodyEmptyNoReconciliation(groups: seq<TransGroup>, n: nat, idText: string)
    requires |groups| > 0 && groups[0] == []
    requires n <= |groups| && TransFrom(groups, n, idText).Success?
    ensures forall p | p in TransFrom(groups, n, idText).value ::
      exists i | 1 <= i < n :: groups[i] != [] && p.translations == Texts(groups[i])
    decreases n
  {
    if n > 0 {
      FirstTbodyEmptyNoReconciliation(groups, n - 1, idText);
      GroupOutMeaning(groups[n - 1], n - 1, idText);
      var parts := TransFrom(groups, n - 1, idText).value;
      forall p | p in TransFrom(groups, n, idText).value
        ensures exists i | 1 <= i < n :: groups[i] != [] && p.translations == Texts(groups[i])
      {
        if p in parts {
          var i :| 1 <= i < n - 1 && groups[i] != [] && p.translations == Texts(groups[i]);
        } else {
          assert groups[n - 1] != [] && p == ExpectedGroup(groups[n - 1], n - 1, idText);
          assert n - 1 != 0;
        }
      }
    }
  }
}
