/**
 * The definition extractor: one pass over the children of the definitions
 * section, carrying the pending field prefix, the open part-of-speech group
 * and the first non-empty part-of-speech label.
 */
module Definitions {
  import opened Wrappers
  import opened Dom
  import Fields

  /** `{no, text, example}` */
  datatype Definition = Definition(no: string, text: string, example: string)

  /** `{part, definitions}` */
  datatype DefPart = DefPart(part: string, definitions: seq<Definition>)

  /**
   * The state carried from child to child. The open group (`defPartsIndex`
   * in the source) is always the last one of `defParts`.
   */
  datatype DefState = DefState(earlyFields: string, defParts: seq<DefPart>, firstPart: string)

  const Start := DefState("", [], "")

  /** The rendering of an entry's own field wrapper, `""` when it has none. */
  function LocalFields(fields: Option<FieldTags>): string {
    match fields
    case None => ""
    case Some(tags) => Fields.Render(tags)
  }

  /** `defParts[defPartsIndex].definitions.push(d)` with the open group the last one. */
  function AppendToLast(groups: seq<DefPart>, d: Definition): (r: seq<DefPart>)
    requires groups != []
    ensures |r| == |groups|
    ensures r[..|r| - 1] == groups[..|groups| - 1]
    ensures r[|r| - 1].part == groups[|groups| - 1].part
    ensures r[|r| - 1].definitions == groups[|groups| - 1].definitions + [d]
  {
    var last := groups[|groups| - 1];
    groups[|groups| - 1 := DefPart(last.part, last.definitions + [d])]
  }

  /** The effect of the child at index `i` on the state. */
  function Step(s: DefState, c: DefChild, i: nat): Result<DefState, Fault> {
    match c
    case EarlyFields(tags) =>
      Success(s.(earlyFields := Fields.Render(tags)))
    case PartMarker(part, fields) =>
      Success(DefState(
        if fields.Some? then Fields.Render(fields.value) else s.earlyFields,
        s.defParts + [DefPart(part, [])],
        if s.firstPart == "" then part else s.firstPart))
    case DefEntry(no, fields, definition, example) =>
      if s.defParts == [] then Failure(DefinitionBeforePartOfSpeech(i))
      else
        var d := Definition(no, s.earlyFields + LocalFields(fields) + definition, example.GetOr(""));
        Success(DefState("", AppendToLast(s.defParts, d), s.firstPart))
    case Other =>
      Success(s)
  }

  /** The state after the children `cs`, in document order, or the fault that stopped the pass. */
  function Extract(cs: seq<DefChild>): Result<DefState, Fault>
    decreases |cs|
  {
    if cs == [] then Success(Start)
    else
      match Extract(cs[..|cs| - 1])
      case Failure(e) => Failure(e)
      case Success(s) => Step(s, cs[|cs| - 1], |cs| - 1)
  }

  /** One more child: the pass goes on from the state the prefix reached. */
  lemma ExtractNext(cs: seq<DefChild>, i: nat)
    requires i < |cs| && Extract(cs[..i]).Success?
    ensures Extract(cs[..i + 1]) == Step(Extract(cs[..i]).value, cs[i], i)
  {
    assert cs[..i + 1][..i] == cs[..i];
  }

  /** Once the pass has stopped on a fault, later children cannot resume it. */
  lemma {:induction false} FailureIsFinal(cs: seq<DefChild>, i: nat)
    requires i <= |cs| && Extract(cs[..i]).Failure?
    ensures Extract(cs) == Extract(cs[..i])
    decreases |cs|
  {
    if i < |cs| {
      var pre := cs[..|cs| - 1];
      assert pre[..i] == cs[..i];
      FailureIsFinal(pre, i);
    } else {
      assert cs[..i] == cs;
    }
  }

  /**
   * The `defObj` of a definition entry: the pending prefix, used up here,
   * then the entry's own fields, then its definition; the example or `""`.
   */
  method ScrapeEntry(earlyFields: string, child: DefChild) returns (defObj: Definition, pending: string)
    requires child.DefEntry?
    ensures defObj == Definition(child.no, earlyFields + LocalFields(child.fields) + child.definition, child.example.GetOr(""))
    ensures pending == ""
  {
    pending := earlyFields;
    var text := "";
    if pending != "" {
      text := text + pending;
      pending := "";
    }
    if child.fields.Some? {
      var fieldsString := Fields.ScrapeFields(child.fields.value);
      text := text + fieldsString;
    }
    text := text + child.definition;
    var example := "";
    if child.example.Some? {
      example := child.example.value;
    }
    defObj := Definition(child.no, text, example);
  }

  /**
   * The loop over `defSection.children`, updating `earlyFields`,
   * `defPartsIndex`, `firstPart` and `defParts` in place.
   */
  method ScrapeDefinitions(children: seq<DefChild>) returns (r: Result<DefState, Fault>)
    ensures r == Extract(children)
  {
    var earlyFields := "";
    var defParts: seq<DefPart> := [];
    var defPartsIndex := -1;
    var firstPart := "";
    for i := 0 to |children|
      invariant Extract(children[..i]) == Success(DefState(earlyFields, defParts, firstPart))
      invariant defPartsIndex == |defParts| - 1
    {
      ExtractNext(children, i);
      match children[i] {
        case EarlyFields(tags) =>
          earlyFields := Fields.ScrapeFields(tags);
        case PartMarker(part, partFieldWrapper) =>
          defPartsIndex := defPartsIndex + 1;
          defParts := defParts + [DefPart(part, [])];
          if firstPart == "" {
            firstPart := part;
          }
          if partFieldWrapper.Some? {
            earlyFields := Fields.ScrapeFields(partFieldWrapper.value);
          }
        case DefEntry(no, fieldsWrapper, definition, example) =>
          var defObj;
          defObj, earlyFields := ScrapeEntry(earlyFields, children[i]);
          if defPartsIndex < 0 {
            FailureIsFinal(children, i + 1);
            return Failure(DefinitionBeforePartOfSpeech(i));
          }
          var open := defParts[defPartsIndex];
          defParts := defParts[defPartsIndex := DefPart(open.part, open.definitions + [defObj])];
        case Other =>
      }
    }
    assert children[..|children|] == children;
    return Success(DefState(earlyFields, defParts, firstPart));
  }

  // ---------------------------------------------------------------------
  // Reference definitions, independent of the state machine

  /** The part-of-speech labels of the markers in `cs`, in document order. */
  function Markers(cs: seq<DefChild>): (r: seq<string>)
    ensures |r| <= |cs|
  {
    if cs == [] then []
    else
      var last := cs[|cs| - 1];
      Markers(cs[..|cs| - 1]) + (if last.PartMarker? then [last.part] else [])
  }

  /** The first non-empty label of `labels`, `""` if they are all empty. */
  function FirstNonEmpty(labels: seq<string>): (r: string)
    ensures (r == "") <==> (forall k | 0 <= k < |labels| :: labels[k] == "")
    ensures r != "" ==> exists k | 0 <= k < |labels| :: labels[k] == r && forall j | 0 <= j < k :: labels[j] == ""
  {
    if labels == [] then ""
    else if labels[0] != "" then labels[0]
    else FirstNonEmpty(labels[1..])
  }

  function Parts(groups: seq<DefPart>): (r: seq<string>)
    ensures |r| == |groups|
  {
    seq(|groups|, k requires 0 <= k < |groups| => groups[k].part)
  }

  /** Every definition of `groups`, group after group. */
  function Flatten(groups: seq<DefPart>): seq<Definition> {
    if groups == [] then []
    else Flatten(groups[..|groups| - 1]) + groups[|groups| - 1].definitions
  }

  /**
   * The field prefix waiting after the children `cs`: the rendering of the
   * latest early field list or marker field wrapper, unless a definition
   * entry has come after it.
   */
  function Pending(cs: seq<DefChild>): string {
    if cs == [] then ""
    else
      var pre := cs[..|cs| - 1];
      match cs[|cs| - 1]
      case EarlyFields(tags) => Fields.Render(tags)
      case PartMarker(_, fields) => if fields.Some? then Fields.Render(fields.value) else Pending(pre)
      case DefEntry(_, _, _, _) => ""
      case Other => Pending(pre)
  }

  /** One definition per entry of `cs`, in document order, as the output holds it. */
  function Expected(cs: seq<DefChild>): seq<Definition> {
    if cs == [] then []
    else
      var pre := cs[..|cs| - 1];
      match cs[|cs| - 1]
      case DefEntry(no, fields, definition, example) =>
        Expected(pre) + [Definition(no, Pending(pre) + LocalFields(fields) + definition, example.GetOr(""))]
      case _ => Expected(pre)
  }

  /** No definition entry comes before the first part-of-speech marker. */
  predicate NoOrphanEntry(cs: seq<DefChild>) {
    forall i | 0 <= i < |cs| :: cs[i].DefEntry? ==> Markers(cs[..i]) != []
  }

  // ---------------------------------------------------------------------
  // Properties of the pass

  lemma {:induction false} FirstNonEmptySnoc(labels: seq<string>, l: string)
    ensures FirstNonEmpty(labels + [l]) == if FirstNonEmpty(labels) == "" then l else FirstNonEmpty(labels)
  {
    if labels != [] {
      assert (labels + [l])[1..] == labels[1..] + [l];
      FirstNonEmptySnoc(labels[1..], l);
    }
  }

  /** Adding a definition to the open group changes no label. */
  lemma PartsOfAppendToLast(groups: seq<DefPart>, d: Definition)
    requires groups != []
    ensures Parts(AppendToLast(groups, d)) == Parts(groups)
  {
    var g := AppendToLast(groups, d);
    forall k | 0 <= k < |g|
      ensures g[k].part == groups[k].part
    {
      if k < |g| - 1 {
        assert g[k] == g[..|g| - 1][k];
        assert groups[k] == groups[..|groups| - 1][k];
      }
    }
  }

  /**
   * There is one group per part-of-speech marker, in document order, and
   * `firstPart` is the first non-empty marker label.
   */
  lemma {:induction false} GroupsFollowMarkers(cs: seq<DefChild>)
    requires Extract(cs).Success?
    ensures Parts(Extract(cs).value.defParts) == Markers(cs)
    ensures Extract(cs).value.firstPart == FirstNonEmpty(Markers(cs))
    decreases |cs|
  {
    if cs != [] {
      var n := |cs| - 1;
      var pre := cs[..n];
      GroupsFollowMarkers(pre);
      var s := Extract(pre).value;
      var s' := Extract(cs).value;
      assert Step(s, cs[n], n) == Success(s');
      match cs[n]
      case PartMarker(part, fields) =>
        assert Markers(cs) == Markers(pre) + [part];
        FirstNonEmptySnoc(Markers(pre), part);
        assert Parts(s.defParts + [DefPart(part, [])]) == Parts(s.defParts) + [part];
      case DefEntry(no, fields, definition, example) =>
        var d := Definition(no, s.earlyFields + LocalFields(fields) + definition, example.GetOr(""));
        PartsOfAppendToLast(s.defParts, d);
      case EarlyFields(tags) =>
      case Other =>
    }
  }

  lemma NoOrphanEntryLast(cs: seq<DefChild>)
    requires cs != []
    ensures NoOrphanEntry(cs) <==>
      NoOrphanEntry(cs[..|cs| - 1]) && (cs[|cs| - 1].DefEntry? ==> Markers(cs[..|cs| - 1]) != [])
  {
    var n := |cs| - 1;
    var pre := cs[..n];
    assert forall i | 0 <= i < n :: pre[..i] == cs[..i] && pre[i] == cs[i];
  }

  /** The pass stops on a fault exactly when some entry has no marker before it. */
  lemma {:induction false} ExtractSucceedsIff(cs: seq<DefChild>)
    ensures Extract(cs).Success? <==> NoOrphanEntry(cs)
    decreases |cs|
  {
    if cs != [] {
      var pre := cs[..|cs| - 1];
      ExtractSucceedsIff(pre);
      NoOrphanEntryLast(cs);
      if Extract(pre).Success? {
        GroupsFollowMarkers(pre);
        var s := Extract(pre).value;
        assert |s.defParts| == |Markers(pre)|;
        assert Extract(cs) == Step(s, cs[|cs| - 1], |cs| - 1);
      }
    }
  }

  lemma FlattenSnoc(groups: seq<DefPart>, g: DefPart)
    ensures Flatten(groups + [g]) == Flatten(groups) + g.definitions
  {
    assert (groups + [g])[..|groups|] == groups;
  }

  /**
   * Nothing is lost or reordered: the definitions of all groups, group after
   * group, are the entries in document order, each with the pending prefix,
   * its own fields and its definition as text and its example or `""`; and
   * the prefix still pending at the end is `Pending(cs)`.
   */
  lemma {:induction false} DefinitionsInDocumentOrder(cs: seq<DefChild>)
    requires Extract(cs).Success?
    ensures Flatten(Extract(cs).value.defParts) == Expected(cs)
    ensures Extract(cs).value.earlyFields == Pending(cs)
    decreases |cs|
  {
    if cs != [] {
      var pre := cs[..|cs| - 1];
      DefinitionsInDocumentOrder(pre);
      var s := Extract(pre).value;
      match cs[|cs| - 1]
      case PartMarker(part, fields) =>
        FlattenSnoc(s.defParts, DefPart(part, []));
      case DefEntry(no, fields, definition, example) =>
        var d := Definition(no, s.earlyFields + LocalFields(fields) + definition, example.GetOr(""));
        var g := AppendToLast(s.defParts, d);
        var n := |g| - 1;
        assert g == g[..n] + [g[n]];
        assert s.defParts == s.defParts[..n] + [s.defParts[n]];
        FlattenSnoc(g[..n], g[n]);
        FlattenSnoc(s.defParts[..n], s.defParts[n]);
      case EarlyFields(tags) =>
      case Other =>
    }
  }

  /**
   * Which group each definition lands in: the groups before the marker at
   * index `i` hold exactly the definitions of the entries before that marker,
   * so the entries between two markers all go to the group of the first.
   */
  lemma {:induction false} GroupsBeforeMarker(cs: seq<DefChild>, i: nat)
    requires Extract(cs).Success? && i < |cs| && cs[i].PartMarker?
    ensures |Markers(cs[..i])| < |Extract(cs).value.defParts|
    ensures Flatten(Extract(cs).value.defParts[..|Markers(cs[..i])|]) == Expected(cs[..i])
    decreases |cs|
  {
    var n := |cs| - 1;
    var pre := cs[..n];
    var s := Extract(pre).value;
    var s' := Extract(cs).value;
    assert Step(s, cs[n], n) == Success(s');
    if i == n {
      GroupsFollowMarkers(pre);
      DefinitionsInDocumentOrder(pre);
      assert |Markers(pre)| == |s.defParts|;
      assert s'.defParts[..|s.defParts|] == s.defParts;
    } else {
      assert pre[..i] == cs[..i];
      GroupsBeforeMarker(pre, i);
      var m := |Markers(cs[..i])|;
      match cs[n]
      case PartMarker(part, fields) =>
        assert s'.defParts[..m] == s.defParts[..m];
      case DefEntry(no, fields, definition, example) =>
        var d := Definition(no, s.earlyFields + LocalFields(fields) + definition, example.GetOr(""));
        var g := AppendToLast(s.defParts, d);
        assert g[..m] == g[..|g| - 1][..m];
        assert s.defParts[..m] == s.defParts[..|s.defParts| - 1][..m];
      case EarlyFields(tags) =>
      case Other =>
    }
  }

  /**
   * A definition entry after an opened group: its text is the pending prefix,
   * then its own fields, then its definition; its example is the example
   * text or `""`; it goes to the end of the last group, every other group is
   * unchanged, and the pending prefix is used up.
   */
  lemma EntryStep(pre: seq<DefChild>, s: DefState, no: string, fields: Option<FieldTags>,
                  definition: string, example: Option<string>)
    requires Extract(pre) == Success(s) && s.defParts != []
    ensures var r := Extract(pre + [DefEntry(no, fields, definition, example)]);
      && r.Success?
      && r.value.earlyFields == ""
      && r.value.firstPart == s.firstPart
      && |r.value.defParts| == |s.defParts|
      && r.value.defParts[..|s.defParts| - 1] == s.defParts[..|s.defParts| - 1]
      && r.value.defParts[|s.defParts| - 1] == DefPart(
           s.defParts[|s.defParts| - 1].part,
           s.defParts[|s.defParts| - 1].definitions
             + [Definition(no, s.earlyFields + LocalFields(fields) + definition, example.GetOr(""))])
  {
    var cs := pre + [DefEntry(no, fields, definition, example)];
    assert cs[..|cs| - 1] == pre;
  }

  /**
   * A part-of-speech marker opens a new, empty group after the existing ones.
   * A marker with its own field wrapper replaces the pending prefix with that
   * wrapper's rendering; one without leaves the pending prefix as it was.
   */
  lemma MarkerStep(pre: seq<DefChild>, s: DefState, part: string, fields: Option<FieldTags>)
    requires Extract(pre) == Success(s)
    ensures var r := Extract(pre + [PartMarker(part, fields)]);
      && r.Success?
      && r.value.defParts == s.defParts + [DefPart(part, [])]
      && (fields.Some? ==> r.value.earlyFields == Fields.Render(fields.value))
      && (fields.None? ==> r.value.earlyFields == s.earlyFields)
      && r.value.firstPart == (if s.firstPart == "" then part else s.firstPart)
  {
    var cs := pre + [PartMarker(part, fields)];
    assert cs[..|cs| - 1] == pre;
  }

  /**
   * Pending fields are used once: after early fields, two entries in a row
   * give the prefix to the first entry only.
   */
  lemma {:induction false} PendingUsedOnce(pre: seq<DefChild>, s: DefState, tags: FieldTags,
                                           no1: string, def1: string, no2: string, def2: string)
    requires Extract(pre) == Success(s) && s.defParts != []
    ensures var cs := pre + [EarlyFields(tags), DefEntry(no1, None, def1, None), DefEntry(no2, None, def2, None)];
      && Extract(cs).Success?
      && |Extract(cs).value.defParts| == |s.defParts|
      && var open := Extract(cs).value.defParts[|s.defParts| - 1].definitions;
      && |open| >= 2
      && open[|open| - 2] == Definition(no1, Fields.Render(tags) + def1, "")
      && open[|open| - 1] == Definition(no2, def2, "")
  {
    var c1 := pre + [EarlyFields(tags)];
    assert c1[..|c1| - 1] == pre;
    var s1 := Extract(c1).value;
    assert s1 == s.(earlyFields := Fields.Render(tags));
    var c2 := c1 + [DefEntry(no1, None, def1, None)];
    EntryStep(c1, s1, no1, None, def1, None);
    var s2 := Extract(c2).value;
    EntryStep(c2, s2, no2, None, def2, None);
    assert c2 + [DefEntry(no2, None, def2, None)]
        == pre + [EarlyFields(tags), DefEntry(no1, None, def1, None), DefEntry(no2, None, def2, None)];
  }
}
