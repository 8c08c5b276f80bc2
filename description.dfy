/**
 * The Markdown description of a request: a heading, the URL and method
 * lines, then the params block and the response block.
 */
module Description {
  import opened Wrappers
  import opened Text
  import opened Sequences
  import opened ApiDoc

  /** `_.omit(param, ['group'])`: the field without its `group` column. */
  function Omit(row: Row): (r: Row)
    ensures forall c :: c in r <==> c in row && c.column != "group"
    ensures |r| <= |row|
    decreases |row|
  {
    if row == [] then []
    else if row[0].column == "group" then Omit(row[1..])
    else [row[0]] + Omit(row[1..])
  }

  /** Dropping the `group` column works cell by cell: it commutes with concatenation. */
  lemma {:induction false} OmitAppend(a: Row, b: Row)
    ensures Omit(a + b) == Omit(a) + Omit(b)
    decreases |a|
  {
    if a != [] {
      assert (a + b)[0] == a[0] && (a + b)[1..] == a[1..] + b;
      OmitAppend(a[1..], b);
    } else {
      assert a + b == b;
    }
  }

  /** A row without a `group` column is left as it is, and dropping the column twice is dropping it once. */
  lemma {:induction false} OmitKeepsOrder(row: Row)
    ensures (forall i :: 0 <= i < |row| ==> row[i].column != "group") ==> Omit(row) == row
    ensures Omit(Omit(row)) == Omit(row)
    decreases |row|
  {
    if row != [] {
      OmitKeepsOrder(row[1..]);
      if row[0].column != "group" {
        assert Omit(row)[1..] == Omit(row[1..]);
        if forall i :: 0 <= i < |row| ==> row[i].column != "group" {
          assert forall i :: 0 <= i < |row[1..]| ==> row[1..][i] == row[i + 1];
        }
      }
    }
  }

  /** Dropping the `group` column keeps the remaining cells in their order. */
  lemma {:induction false} OmitSubsequence(row: Row)
    ensures Subsequence(Omit(row), row)
    decreases |row|
  {
    if row != [] {
      var init := row[..|row| - 1];
      var last := row[|row| - 1];
      OmitSubsequence(init);
      assert row == init + [last];
      OmitAppend(init, [last]);
      assert [last][1..] == [];
      var o := Omit(init);
      if last.column == "group" {
        assert Omit(row) == o;
      } else {
        assert Omit(row) == o + [last];
        assert (o + [last])[..|o|] == o;
      }
    }
  }

  function OmitAll(rows: seq<Row>): (r: seq<Row>)
    ensures |r| == |rows|
    ensures forall i :: 0 <= i < |rows| ==> r[i] == Omit(rows[i])
  {
    seq(|rows|, i requires 0 <= i < |rows| => Omit(rows[i]))
  }

  const ParamsHeading := "<br/>**Params:**\n"

  /**
   * `_formatParams`: nothing without `parameter`, else the `Params` heading
   * and the table of its fields.
   */
  function ParamsBlock(parameter: Option<ParameterSection>, table: Table): (r: string)
    ensures r == "" <==> parameter.None?
    ensures parameter.Some? ==> |r| >= |ParamsHeading| && r[..|ParamsHeading|] == ParamsHeading
    ensures parameter.Some? ==> r[|ParamsHeading|..] == table(OmitAll(parameter.value.rows.GetOr([]))) + "\n\n"
  {
    match parameter
    case None => ""
    case Some(p) =>
      var t := table(OmitAll(p.rows.GetOr([]))) + "\n\n";
      assert (ParamsHeading + t)[|ParamsHeading|..] == t;
      ParamsHeading + t
  }

  /** One `success.fields` group: its key as a heading, then its table. */
  function FieldSection(g: FieldGroup, table: Table): string {
    " ***" + g.key + "***\n\n" + table(OmitAll(g.rows)) + "\n\n"
  }

  /** One section per `success.fields` group, in the groups' order. */
  function FieldSections(gs: seq<FieldGroup>, table: Table): (r: seq<string>)
    ensures |r| == |gs|
    ensures forall i :: 0 <= i < |gs| ==> r[i] == FieldSection(gs[i], table)
  {
    seq(|gs|, i requires 0 <= i < |gs| => FieldSection(gs[i], table))
  }

  function HasExamples(examples: Option<seq<Example>>): bool {
    examples.Some? && |examples.value| > 0
  }

  const ResponseHeading := "<br/>**Response:**\n"

  /** The field sections, joined by blank lines, when `fields` is present. */
  function FieldsText(fields: Option<seq<FieldGroup>>, table: Table): string {
    if fields.Some? then Join(FieldSections(fields.value, table), "\n\n") + "\n\n" else ""
  }

  /** The first success example as a fenced JSON block. */
  function ExampleBlock(e: Example): string {
    "<br/>**Success response example:**\n\n" + "```json\n" + e.content + "\n```"
  }

  /** The first example's block, when there is an example. */
  function ExampleText(examples: Option<seq<Example>>): string {
    if HasExamples(examples) then ExampleBlock(examples.value[0]) else ""
  }

  /**
   * `_formatResponse`: empty without `success`, or when it has neither
   * fields nor a non-empty example list; otherwise the `Response` heading,
   * the field tables, then the first example.
   */
  function ResponseBlock(success: Option<SuccessSection>, table: Table): (r: string)
    ensures r == "" <==> success.None? || (success.value.fields.None? && !HasExamples(success.value.examples))
    ensures r != "" ==> |r| >= |ResponseHeading| && r[..|ResponseHeading|] == ResponseHeading
    ensures r != "" ==> r[|ResponseHeading|..] == FieldsText(success.value.fields, table) + ExampleText(success.value.examples)
  {
    match success
    case None => ""
    case Some(s) =>
      var a := FieldsText(s.fields, table);
      var b := ExampleText(s.examples);
      if s.fields.Some? || HasExamples(s.examples) then
        assert (ResponseHeading + a + b)[..|ResponseHeading|] == ResponseHeading;
        assert (ResponseHeading + a + b)[|ResponseHeading|..] == a + b;
        ResponseHeading + a + b
      else
        assert a + b == "";
        ""
  }

  /** With `fields` present, every group's section, its key and its table, shows in the response block. */
  lemma ResponseShowsEveryGroup(s: SuccessSection, table: Table, i: nat)
    requires s.fields.Some? && i < |s.fields.value|
    ensures exists k: nat :: OccursAt(ResponseBlock(Some(s), table), FieldSection(s.fields.value[i], table), k)
  {
    var r := ResponseBlock(Some(s), table);
    var x := FieldSection(s.fields.value[i], table);
    FieldsTextHolds(s.fields.value, table, ExampleText(s.examples), i);
    var k: nat :| OccursAt(FieldsText(s.fields, table) + ExampleText(s.examples), x, k);
    OccursAfter(r, |ResponseHeading|, x, k);
  }

  /** Every group's section occurs in the field text, whatever follows it. */
  lemma FieldsTextHolds(gs: seq<FieldGroup>, table: Table, tail: string, i: nat)
    requires i < |gs|
    ensures exists k: nat :: OccursAt(FieldsText(Some(gs), table) + tail, FieldSection(gs[i], table), k)
  {
    var parts := FieldSections(gs, table);
    var t := "\n\n" + tail;
    JoinHoldsPart(parts, "\n\n", t, i);
    assert Join(parts, "\n\n") + t == FieldsText(Some(gs), table) + tail;
  }

  const UrlLabel := "\n\n\n\n**URL**: `"
  const MethodLabel := "`\n\n**Method**: `"
  const LineEnd := "`\n\n"

  /** The text up to the URL in the heading. */
  function UrlLinePrefix(description: string): string {
    "# " + description + UrlLabel
  }

  /** The text up to the method in the heading. */
  function MethodLinePrefix(description: string, url: string): string {
    UrlLinePrefix(description) + url + MethodLabel
  }

  /** The heading: the description as a title, then the URL line and the method line. */
  function Heading(description: string, url: string, verb: string): string {
    MethodLinePrefix(description, url) + verb + LineEnd
  }

  /** Where the pieces of `a + url + l + verb + t + p + r` sit. */
  lemma Layout(a: string, url: string, l: string, verb: string, t: string, p: string, r: string)
    ensures var h := a + url + l + verb + t;
      var d := h + p + r;
      OccursAt(d, url, |a|) && OccursAt(d, verb, |a + url + l|) &&
      |d| >= |h| + |p| && d[..|h|] == h && d[|h|..|h| + |p|] == p && d[|h| + |p|..] == r
  {
    var h := a + url + l + verb + t;
    assert h + p + r == a + url + (l + verb + t + p + r);
    OccursAtSplice(a, url, l + verb + t + p + r);
    assert h + p + r == (a + url + l) + verb + (t + p + r);
    OccursAtSplice(a + url + l, verb, t + p + r);
    assert (h + p + r)[..|h|] == h;
    assert (h + p + r)[|h|..|h| + |p|] == p;
  }

  /**
   * `_formatAPIDescription`, given the rewritten URL and the upper-cased
   * method: the heading shows the URL and the method at fixed places, then
   * come the params block and the response block, in that order.
   */
  function DescriptionText(description: string, url: string, verb: string,
                           parameter: Option<ParameterSection>, success: Option<SuccessSection>,
                           table: Table): (d: string)
    ensures OccursAt(d, url, |UrlLinePrefix(description)|)
    ensures OccursAt(d, verb, |MethodLinePrefix(description, url)|)
    ensures var h := Heading(description, url, verb);
      var p := ParamsBlock(parameter, table);
      |d| >= |h| + |p| && d[..|h|] == h && d[|h|..|h| + |p|] == p &&
      d[|h| + |p|..] == ResponseBlock(success, table)
    ensures parameter.None? && success.None? ==> d == Heading(description, url, verb)
  {
    var p := ParamsBlock(parameter, table);
    var r := ResponseBlock(success, table);
    Layout(UrlLinePrefix(description), url, MethodLabel, verb, LineEnd, p, r);
    assert parameter.None? && success.None? ==> p + r == "";
    Heading(description, url, verb) + p + r
  }

  /** Only the first success example is shown; it closes the block. */
  lemma ResponseUsesFirstExample(fields: Option<seq<FieldGroup>>, e: Example, later: seq<Example>, table: Table)
    ensures ResponseBlock(Some(SuccessSection(fields, Some([e] + later))), table)
         == ResponseBlock(Some(SuccessSection(fields, Some([e]))), table)
    ensures var r := ResponseBlock(Some(SuccessSection(fields, Some([e] + later))), table);
      |r| >= |ExampleBlock(e)| && r[|r| - |ExampleBlock(e)|..] == ExampleBlock(e)
  {
    assert ([e] + later)[0] == e;
  }
}
