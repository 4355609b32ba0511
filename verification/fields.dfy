/** The field renderer: a list of field tags becomes one decorated prefix string. */
module Fields {
  import opened Dom

  /** ASCII upper-casing of one character (the model's stand-in for `toUpperCase`). */
  function UpperChar(c: char): char {
    if 'a' <= c <= 'z' then (c as int - 32) as char else c
  }

  function Upper(s: string): string {
    seq(|s|, i requires 0 <= i < |s| => UpperChar(s[i]))
  }

  /** One tag as it appears in the prefix: `(TAG) `. */
  function Wrap(tag: string): string {
    "(" + Upper(tag) + ") "
  }

  /**
   * The prefix for a field list: every tag wrapped, in document order. It is
   * empty exactly when there are no tags, and each tag adds at least its
   * parentheses and the trailing space.
   */
  function Render(tags: FieldTags): (r: string)
    ensures (r == "") <==> (tags == [])
    ensures |r| >= 3 * |tags|
  {
    if tags == [] then "" else Render(tags[..|tags| - 1]) + Wrap(tags[|tags| - 1])
  }

  /** The loop that builds `fieldsString`, one `+=` per field element. */
  method ScrapeFields(fieldEls: FieldTags) returns (fieldsString: string)
    ensures fieldsString == Render(fieldEls)
  {
    fieldsString := "";
    for i := 0 to |fieldEls|
      invariant fieldsString == Render(fieldEls[..i])
    {
      assert fieldEls[..i + 1][..i] == fieldEls[..i];
      fieldsString := fieldsString + Wrap(fieldEls[i]);
    }
    assert fieldEls[..|fieldEls|] == fieldEls;
  }

  /** A tag added after a list adds its wrapping at the end. */
  lemma RenderSnoc(tags: FieldTags, tag: string)
    ensures Render(tags + [tag]) == Render(tags) + Wrap(tag)
  {
    assert (tags + [tag])[..|tags|] == tags;
  }

  /** Rendering two lists one after the other is rendering their concatenation. */
  lemma {:induction false} RenderAppend(a: FieldTags, b: FieldTags)
    ensures Render(a + b) == Render(a) + Render(b)
    decreases |b|
  {
    if b == [] {
      assert a + b == a;
    } else {
      var b', last := b[..|b| - 1], b[|b| - 1];
      assert b == b' + [last];
      assert a + b == (a + b') + [last];
      RenderAppend(a, b');
      RenderSnoc(a + b', last);
      RenderSnoc(b', last);
    }
  }

  /** Document order: the first tag's wrapping comes first. */
  lemma RenderFirst(tag: string, rest: FieldTags)
    ensures Render([tag] + rest) == Wrap(tag) + Render(rest)
  {
    RenderAppend([tag], rest);
    assert [tag][..0] == [];
  }
}
