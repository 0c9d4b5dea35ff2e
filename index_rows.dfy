// One row of the operations index page: whether it is shown at all, and a cell per
// configured format that links to the format's metadata page when the format is
// visible for the operation (IndexOperationsControl.RenderRow).

module IndexRows {
  import opened StringBuilding
  import opened RequirementIcons

  /** One of the metadata configuration's available formats, in column order.
      `format` is the format's identifier as the visibility check receives it. */
  datatype FormatConfig = FormatConfig(format: string, name: string, defaultMetadataUri: string)

  /** What the row consults of the metadata pages configuration: the formats, the
      always-hide check on operation names, and the per-format visibility check of the
      current request (format identifier, operation name). */
  datatype MetadataPagesConfig = MetadataPagesConfig(
    availableFormatConfigs: seq<FormatConfig>,
    alwaysHideInMetadata: string -> bool,
    isVisible: (string, string) -> bool)

  /** What the row consults of the host and the request: the host's debug mode, the
      request's absolute base URL, and the path-joining helper. */
  datatype RequestContext = RequestContext(
    debugMode: bool,
    baseUrl: string,
    combineWith: (string, string) -> string)

  /** The content of one format's column: a link to the format's metadata page, or the
      plain format name. */
  datatype Cell = Link(uri: string, name: string) | Label(name: string)

  /** The cell of `format` in the row of `operationName`. */
  function CellFor(config: MetadataPagesConfig, ctx: RequestContext, format: FormatConfig, operationName: string): Cell
  {
    if config.isVisible(format.format, operationName)
    then Link(ctx.combineWith(ctx.baseUrl, format.defaultMetadataUri), format.name)
    else Label(format.name)
  }

  /** The cells of a row, one per format, in the order of `formats`. */
  function Cells(config: MetadataPagesConfig, ctx: RequestContext, formats: seq<FormatConfig>, operationName: string): seq<Cell>
  {
    seq(|formats|, k requires 0 <= k < |formats| => CellFor(config, ctx, formats[k], operationName))
  }

  /** The markup of a cell; a link passes the operation name as the `op` query parameter. */
  function CellHtml(c: Cell, operationName: string): string
  {
    match c
    case Link(uri, name) => "<td><a href=\"" + uri + "?op=" + operationName + "\">" + name + "</a></td>"
    case Label(name) => "<td>" + name + "</td>"
  }

  function CellsHtml(cells: seq<Cell>, operationName: string): seq<string>
  {
    seq(|cells|, k requires 0 <= k < |cells| => CellHtml(cells[k], operationName))
  }

  /** The opening of a row: the header cell holds the annotation and the operation name. */
  function RowHead(icons: string, operationName: string): string
  {
    "<tr><th>" + icons + operationName + "</th>"
  }

  function RowHtml(icons: string, operationName: string, cells: seq<Cell>): string
  {
    RowHead(icons, operationName) + Concat(CellsHtml(cells, operationName)) + "</tr>"
  }

  predicate AnyFormatVisible(config: MetadataPagesConfig, formats: seq<FormatConfig>, operationName: string)
  {
    exists k :: 0 <= k < |formats| && config.isVisible(formats[k].format, operationName)
  }

  /** The row is shown in debug mode unless the operation is always hidden, and whenever
      some format is visible for it. */
  predicate Shown(config: MetadataPagesConfig, ctx: RequestContext, operationName: string)
  {
    (ctx.debugMode && !config.alwaysHideInMetadata(operationName))
    || AnyFormatVisible(config, config.availableFormatConfigs, operationName)
  }

  /** The row of an operation: its markup when shown, the empty string otherwise. */
  function Row(config: MetadataPagesConfig, ctx: RequestContext, operationName: string, op: Operation): string
  {
    if Shown(config, ctx, operationName)
    then RowHtml(Icons(op), operationName, Cells(config, ctx, config.availableFormatConfigs, operationName))
    else ""
  }

  // ---------------------------------------------------------------------------
  // Properties

  /** One cell per format, in order: a link to the format's metadata page exactly when
      the format is visible for the operation, and always under the format's name. */
  lemma CellPerFormat(config: MetadataPagesConfig, ctx: RequestContext, formats: seq<FormatConfig>, operationName: string)
    ensures |Cells(config, ctx, formats, operationName)| == |formats|
    ensures forall k :: 0 <= k < |formats| ==>
      var c := Cells(config, ctx, formats, operationName)[k];
      c.name == formats[k].name
      && (c.Link? <==> config.isVisible(formats[k].format, operationName))
      && (c.Link? ==> c.uri == ctx.combineWith(ctx.baseUrl, formats[k].defaultMetadataUri))
  {
  }

  /** A row is shown exactly when debug mode shows it or one of its cells is a link. */
  lemma ShownIffDebugOrLink(config: MetadataPagesConfig, ctx: RequestContext, operationName: string)
    ensures var cells := Cells(config, ctx, config.availableFormatConfigs, operationName);
      Shown(config, ctx, operationName)
      <==> (ctx.debugMode && !config.alwaysHideInMetadata(operationName))
           || exists k :: 0 <= k < |cells| && cells[k].Link?
  {
    var formats := config.availableFormatConfigs;
    var cells := Cells(config, ctx, formats, operationName);
    if AnyFormatVisible(config, formats, operationName) {
      var k :| 0 <= k < |formats| && config.isVisible(formats[k].format, operationName);
      assert cells[k].Link?;
    }
    if exists k :: 0 <= k < |cells| && cells[k].Link? {
      var k :| 0 <= k < |cells| && cells[k].Link?;
      assert config.isVisible(formats[k].format, operationName);
    }
  }

  /** A visible format shows the row even when the operation is always hidden. */
  lemma VisibleFormatOverridesHide(config: MetadataPagesConfig, ctx: RequestContext, operationName: string, k: nat)
    requires k < |config.availableFormatConfigs|
    requires config.isVisible(config.availableFormatConfigs[k].format, operationName)
    ensures Shown(config, ctx, operationName)
  {
  }

  /** Outside debug mode, or for an always-hidden operation, a row with no visible format
      is left out. */
  lemma HiddenWithoutVisibleFormat(config: MetadataPagesConfig, ctx: RequestContext, operationName: string, op: Operation)
    requires !ctx.debugMode || config.alwaysHideInMetadata(operationName)
    requires forall k :: 0 <= k < |config.availableFormatConfigs| ==>
               !config.isVisible(config.availableFormatConfigs[k].format, operationName)
    ensures Row(config, ctx, operationName, op) == ""
  {
  }

  /** A shown row opens with the header cell (annotation, then operation name) and closes
      the table row; a row that is not shown is empty. */
  lemma RowShape(config: MetadataPagesConfig, ctx: RequestContext, operationName: string, op: Operation)
    ensures var row, head := Row(config, ctx, operationName, op), RowHead(Icons(op), operationName);
      if Shown(config, ctx, operationName)
      then |head| + 5 <= |row| && row[..|head|] == head && row[|row| - 5..] == "</tr>"
      else row == ""
  {
  }

  // ---------------------------------------------------------------------------
  // The row builder

  /** Looking at one more format finds a visible format exactly when one was found
      before or that format is visible. */
  lemma VisibleSoFarStep(config: MetadataPagesConfig, formats: seq<FormatConfig>, i: nat, operationName: string)
    requires i < |formats|
    ensures AnyFormatVisible(config, formats[..i + 1], operationName)
        <==> AnyFormatVisible(config, formats[..i], operationName) || config.isVisible(formats[i].format, operationName)
  {
    var next := formats[..i + 1];
    assert next[i] == formats[i];
    assert forall k :: 0 <= k < i ==> next[k] == formats[..i][k];
  }

  /** Rendering one more format appends that format's cell. */
  lemma CellsHtmlStep(config: MetadataPagesConfig, ctx: RequestContext, formats: seq<FormatConfig>, i: nat, operationName: string)
    requires i < |formats|
    ensures Concat(CellsHtml(Cells(config, ctx, formats[..i + 1], operationName), operationName))
         == Concat(CellsHtml(Cells(config, ctx, formats[..i], operationName), operationName))
          + CellHtml(CellFor(config, ctx, formats[i], operationName), operationName)
  {
    var cells := Cells(config, ctx, formats[..i], operationName);
    var cell := CellFor(config, ctx, formats[i], operationName);
    assert formats[..i + 1] == formats[..i] + [formats[i]];
    assert Cells(config, ctx, formats[..i + 1], operationName) == cells + [cell];
    assert CellsHtml(cells + [cell], operationName) == CellsHtml(cells, operationName) + [CellHtml(cell, operationName)];
    ConcatSnoc(CellsHtml(cells, operationName), CellHtml(cell, operationName));
  }

  /** One pass of the loop over the formats appends that format's cell to the row. */
  lemma RowStep(config: MetadataPagesConfig, ctx: RequestContext, formats: seq<FormatConfig>, i: nat,
                operationName: string, head: string, before: string, after: string)
    requires i < |formats|
    requires before == head + Concat(CellsHtml(Cells(config, ctx, formats[..i], operationName), operationName))
    requires after == before + CellHtml(CellFor(config, ctx, formats[i], operationName), operationName)
    ensures after == head + Concat(CellsHtml(Cells(config, ctx, formats[..i + 1], operationName), operationName))
  {
    CellsHtmlStep(config, ctx, formats, i, operationName);
    AppendAssoc(head, Concat(CellsHtml(Cells(config, ctx, formats[..i], operationName), operationName)),
                CellHtml(CellFor(config, ctx, formats[i], operationName), operationName));
  }

  /** Closing the row after the last format gives the row when it is shown, and the
      empty string otherwise. */
  lemma FinishRow(config: MetadataPagesConfig, ctx: RequestContext, operationName: string, op: Operation,
                  show: bool, cellsDone: string)
    requires show == Shown(config, ctx, operationName)
    requires cellsDone == RowHead(Icons(op), operationName)
               + Concat(CellsHtml(Cells(config, ctx, config.availableFormatConfigs, operationName), operationName))
    ensures var row := if show then cellsDone + "</tr>" else "";
      row == Row(config, ctx, operationName, op) && (row != "" <==> show)
  {
  }

  /** Renders the row of one operation, given its requirements `op`. */
  method RenderRow(config: MetadataPagesConfig, ctx: RequestContext, operationName: string, op: Operation)
    returns (row: string)
    ensures row == Row(config, ctx, operationName, op)
    ensures row != "" <==> Shown(config, ctx, operationName)
  {
    var show := ctx.debugMode && !config.alwaysHideInMetadata(operationName);
    var baseUrl := ctx.baseUrl;

    var icons := CreateIcons(op);

    var formats := config.availableFormatConfigs;
    var opTemplate := RowHead(icons, operationName);
    assert CellsHtml(Cells(config, ctx, formats[..0], operationName), operationName) == [];
    AppendEmpty(opTemplate);
    for i := 0 to |formats|
      invariant show == ((ctx.debugMode && !config.alwaysHideInMetadata(operationName))
                         || AnyFormatVisible(config, formats[..i], operationName))
      invariant opTemplate == RowHead(icons, operationName)
                            + Concat(CellsHtml(Cells(config, ctx, formats[..i], operationName), operationName))
    {
      var format := formats[i];
      var uri := ctx.combineWith(baseUrl, format.defaultMetadataUri);
      ghost var before := opTemplate;
      if config.isVisible(format.format, operationName) {
        show := true;
        opTemplate := opTemplate + ("<td><a href=\"" + uri + "?op=" + operationName + "\">" + format.name + "</a></td>");
      } else {
        opTemplate := opTemplate + ("<td>" + format.name + "</td>");
      }
      VisibleSoFarStep(config, formats, i, operationName);
      RowStep(config, ctx, formats, i, operationName, RowHead(icons, operationName), before, opTemplate);
    }
    assert formats[..|formats|] == formats;
    FinishRow(config, ctx, operationName, op, show, opTemplate);

    opTemplate := opTemplate + "</tr>";

    row := if show then opTemplate else "";
  }
}
