/**
 * The input: one endpoint descriptor as apiDoc produces it. Each optional
 * section of the documentation tree is an `Option`.
 */
module ApiDoc {
  import opened Wrappers
  import Headers

  /** One column of a documented field, e.g. `type: String` or `group: Parameter`. */
  datatype Cell = Cell(column: string, value: string)

  /** One documented field (a parameter or a response field): its columns in order. */
  type Row = seq<Cell>

  /** The HTML table renderer (html-tableify): outside the model, so it is a parameter. */
  type Table = seq<Row> -> string

  /** One named group of response fields, e.g. `Success 200`. */
  datatype FieldGroup = FieldGroup(key: string, rows: seq<Row>)

  datatype Example = Example(content: string)

  /** `header`: `declared` is `header.fields.Header`. */
  datatype HeaderSection = HeaderSection(declared: Option<seq<Headers.HeaderField>>)

  /** `parameter`: `rows` is `parameter.fields.Parameter`. */
  datatype ParameterSection = ParameterSection(rows: Option<seq<Row>>, examples: Option<seq<Example>>)

  /** `success`: the field groups in key order, and the examples. */
  datatype SuccessSection = SuccessSection(fields: Option<seq<FieldGroup>>, examples: Option<seq<Example>>)

  datatype Descriptor = Descriptor(
    group: string,
    title: string,
    description: string,
    verb: string,
    url: string,
    header: Option<HeaderSection>,
    parameter: Option<ParameterSection>,
    success: Option<SuccessSection>)

  /**
   * What the source needs of a descriptor: when parameter examples are
   * given there is at least one (`examples[0].content` throws otherwise).
   */
  predicate Convertible(d: Descriptor) {
    d.parameter.Some? && d.parameter.value.examples.Some? ==> |d.parameter.value.examples.value| > 0
  }
}
