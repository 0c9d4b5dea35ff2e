# ServiceStack operations index: row visibility and requirement annotations

This project models the decision logic of ServiceStack's metadata index page control,
`IndexOperationsControl`. The page lists the service's operations, one table row per
operation. Two pieces of that control are modelled:

- **`CreateIcons`** summarises an operation's authentication, role and permission
  requirements as an annotation: a `<span class="icons">` holding an `<i class="auth">`
  icon whose `title` reads, for example, `Requires Roles: admin. Requires Permissions: read`.
  It has four builder loops (required roles, any-of roles, required permissions, any-of
  permissions). Each loop chooses its separator by whether its builder is still empty.
- **`RenderRow`** decides whether an operation's row appears and builds it. The row opens
  with a header cell holding the annotation and the operation name. Then comes one cell
  per configured format: a link to that format's metadata page when the format is visible
  for the operation, and otherwise the format's plain name. A row appears in debug mode
  unless the operation is always hidden. It also appears whenever at least one format is
  visible, so a visible format overrides always-hide.

Both are written as methods with loops over a growing string, which stands for the
`StringBuilder`. Each method is proved equal to a declarative specification function,
and lemmas state the promised properties of those functions.

Files:

- `string_building.dfy` (module `StringBuilding`): `Concat`, the text of a builder after
  appending a sequence of parts, and its append lemmas.
- `requirement_icons.dfy` (module `RequirementIcons`): the `Operation` record, the
  specification of the annotation (`Entries`, `Piece`, `Listing`, `RoleGroup`,
  `PermissionGroup`, `Title`, `Icons`), its lemmas, and the methods `ListRequirements`
  (one group's two loops), `DescribeRequirements` (the title) and `CreateIcons`.
- `index_rows.dfy` (module `IndexRows`): format configurations, the injected
  configuration and request facts, the cell and row specification (`CellFor`, `Cells`,
  `Shown`, `Row`), its lemmas, and the method `RenderRow`.

The model follows the code in these details:

- The role and permission collections are ordered lists iterated in order, not sets.
- Exact separators. A required entry that is not first in its group is preceded by `","`.
  An any-of role that is not first is preceded by `", "`. An any-of permission that is not
  first is preceded by `","`. Every entry then adds a space before its name. So an any-of
  role after another role reads `",  b?"` with two spaces, while the same permission
  reads `", b?"` (lemmas `AnyOfRoleSeparator` and `AnyOfPermissionSeparator`).
- A predicate that fails, or an operation missing from the catalog, is not caught by the
  code: there is no fail-closed path and no "not found" result, and the model has none.

## Model

| member | source | states |
|---|---|---|
| `RequirementIcons.CreateIcons` | src/ServiceStack/Metadata/IndexOperationsControl.cs:54-120 | The builder loops produce exactly `Icons(op)`. The result is empty if and only if the operation does not require authentication. Otherwise it is the icon span around the title. |
| `RequirementIcons.DescribeRequirements` | src/ServiceStack/Metadata/IndexOperationsControl.cs:61-111 | The roles group, the group separator, the permissions group and the fallback together produce exactly `Title(op)`. |
| `RequirementIcons.ListRequirements` | src/ServiceStack/Metadata/IndexOperationsControl.cs:65-81 | The two loops of one group produce the declarative listing of the group's entries. In it, a separator comes before every entry except the group's first: the loop's "builder is non-empty" test equals "not the first entry". The text is empty exactly when both collections are empty. |
| `RequirementIcons.ListingEmpty` | src/ServiceStack/Metadata/IndexOperationsControl.cs:68-71 | A group's listing is empty exactly when it has no entries. A non-empty listing starts with a space. |
| `RequirementIcons.RequiredBeforeAnyOf` | src/ServiceStack/Metadata/IndexOperationsControl.cs:66-80 | A group's listing is the required entries' text followed by the any-of entries in configured order. Each any-of entry is a space, its name and `?`. It is preceded by the any-of separator unless it is the first entry of the whole group. |
| `RequirementIcons.RequiredListing` | src/ServiceStack/Metadata/IndexOperationsControl.cs:66-72 | The required entries are listed in configured order, without `?`. Each is a space and its name, preceded by `","` unless it is first. |
| `RequirementIcons.TitleFallback` | src/ServiceStack/Metadata/IndexOperationsControl.cs:110-111 | The title is exactly `Requires Authentication` if and only if no role and no permission is listed. |
| `RequirementIcons.RolesHeaderFirst` | src/ServiceStack/Metadata/IndexOperationsControl.cs:61-64 | The title begins with `Requires Roles:` if and only if roles are listed, so the roles group always comes first. |
| `RequirementIcons.PermissionsHeaderPlaced` | src/ServiceStack/Metadata/IndexOperationsControl.cs:84-90 | `Requires Permissions:` stands right after the roles group and its separator if and only if permissions are listed. |
| `RequirementIcons.GroupSeparatorIffBoth` | src/ServiceStack/Metadata/IndexOperationsControl.cs:85-88 | The title is the roles group, `". "` and the permissions group if and only if both groups are present. |
| `RequirementIcons.SingleRoleTitle` | src/ServiceStack/Metadata/IndexOperationsControl.cs:61-72 | One required role `admin` gives the title `Requires Roles: admin`. |
| `RequirementIcons.AnyOfRoleSeparator` | src/ServiceStack/Metadata/IndexOperationsControl.cs:66-80 | A required role `a` then an any-of role `b` gives `Requires Roles: a,  b?`, with two spaces before `b`. |
| `RequirementIcons.AnyOfPermissionSeparator` | src/ServiceStack/Metadata/IndexOperationsControl.cs:92-106 | A required permission `a` then an any-of permission `b` gives `Requires Permissions: a, b?`, with one space before `b`. |
| `IndexRows.RenderRow` | src/ServiceStack/Metadata/IndexOperationsControl.cs:21-52 | The loop over the formats builds exactly `Row(...)`. The result is non-empty if and only if the row is shown: in debug mode without always-hide, or when some format is visible. The loop keeps `show` equal to that condition over the formats seen so far. |
| `IndexRows.CellPerFormat` | src/ServiceStack/Metadata/IndexOperationsControl.cs:35-47 | There is one cell per format, in order, under the format's name. A cell is a link if and only if the format is visible for the operation. A link's target is the base URL combined with the format's metadata URI. |
| `IndexRows.ShownIffDebugOrLink` | src/ServiceStack/Metadata/IndexOperationsControl.cs:23-40 | A row is shown if and only if debug mode shows it (not always hidden) or at least one of its cells is a link. |
| `IndexRows.VisibleFormatOverridesHide` | src/ServiceStack/Metadata/IndexOperationsControl.cs:38-40 | One visible format shows the row, whatever the debug flag and always-hide say. |
| `IndexRows.HiddenWithoutVisibleFormat` | src/ServiceStack/Metadata/IndexOperationsControl.cs:23-51 | With debug mode off or the operation always hidden, and no visible format, the row is the empty string. |
| `IndexRows.RowShape` | src/ServiceStack/Metadata/IndexOperationsControl.cs:34-51 | A shown row starts with `<tr><th>`, the annotation and the operation name, and ends with `</tr>`. A row that is not shown is `""`. |

## Left out

- `Render` (lines 122-190): the page template, the XSD list, the WSDL links for the SOAP formats, the plugin and debug link lists, and the output writer. It is presentation only.
- The operation catalog lookups (`GetOperationType`, `GetOperation`) and `HostContext.DebugMode`. The operation's requirements and the debug flag are parameters of `RenderRow`.
- `AlwaysHideInMetadata`, `IsVisible`, `Request.ResolveAbsoluteUrl("~/")` and `CombineWith` are external helpers. They are function-valued parameters, and the resolved base URL is a plain string. The current request enters only through `IsVisible`, which takes the format's identifier and the operation name. The identifier stands for the result of `Format.ToFormat()`.
- .NET composite formatting. The row is built as a template with a `{0}` placeholder (escaped as `{{0}}` in link cells) and filled with `string.Format`. The model writes the operation name into both places directly. Braces inside names, URIs or the annotation are therefore not interpreted, although `string.Format` would interpret them or throw.
- Determinism and ordering of repeated renderings need no lemma: every member is a deterministic function of its inputs.
- Exceptions thrown by the injected predicates or the catalog propagate in the code. The model has no error path for them.
- The `System.Web.UI.Control` base class and the control's settable properties.
