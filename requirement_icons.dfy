// The annotation an index row shows for an operation's authentication, role and
// permission requirements (IndexOperationsControl.CreateIcons).

module RequirementIcons {
  import opened StringBuilding

  /** The requirements of one service operation, each list in the order it was configured. */
  datatype Operation = Operation(
    requiresAuthentication: bool,
    requiredRoles: seq<string>,
    requiresAnyRole: seq<string>,
    requiredPermissions: seq<string>,
    requiresAnyPermission: seq<string>)

  const SPAN_OPEN := "<span class=\"icons\">"
  const SPAN_CLOSE := "</span>"
  const AUTH_OPEN := "<i class=\"auth\" title=\""
  const AUTH_CLOSE := "\"></i>"
  const ROLES_HEADER := "Requires Roles:"
  const PERMISSIONS_HEADER := "Requires Permissions:"
  const AUTHENTICATION_ONLY := "Requires Authentication"
  /** Put between the roles group and the permissions group. */
  const GROUP_SEPARATOR := ". "
  /** Put before a required entry that is not the first of its group. */
  const REQUIRED_SEPARATOR := ","
  /** Put before an any-of role that is not the first of the roles group. */
  const ROLE_ANY_SEPARATOR := ", "
  /** Put before an any-of permission that is not the first of the permissions group. */
  const PERMISSION_ANY_SEPARATOR := ","

  /** One listed role or permission; `anyOf` tells an "any of" entry from a required one. */
  datatype Entry = Entry(name: string, anyOf: bool)

  /** The names of one collection, all marked as the same kind of entry. */
  function Marked(names: seq<string>, anyOf: bool): (es: seq<Entry>)
  {
    seq(|names|, k requires 0 <= k < |names| => Entry(names[k], anyOf))
  }

  /** A group lists its required entries first, then its any-of entries. */
  function Entries(required: seq<string>, anyOf: seq<string>): seq<Entry>
  {
    Marked(required, false) + Marked(anyOf, true)
  }

  /** What comes before the entry at position `k` of a group: nothing before the first. */
  function Lead(k: nat, e: Entry, anySeparator: string): string
  {
    if k == 0 then "" else if e.anyOf then anySeparator else REQUIRED_SEPARATOR
  }

  /** An entry's own text: a space, the name, and `?` for an any-of entry. */
  function Item(e: Entry): string
  {
    " " + e.name + (if e.anyOf then "?" else "")
  }

  /** The entry at position `k`: its lead, then its own text. */
  function Piece(k: nat, e: Entry, anySeparator: string): string
  {
    Lead(k, e, anySeparator) + Item(e)
  }

  function Pieces(es: seq<Entry>, anySeparator: string): seq<string>
  {
    seq(|es|, k requires 0 <= k < |es| => Piece(k, es[k], anySeparator))
  }

  /** The text of a group's entries, as the pieces in order. */
  function Listing(es: seq<Entry>, anySeparator: string): string
  {
    Concat(Pieces(es, anySeparator))
  }

  predicate HasRoles(op: Operation)
  {
    |op.requiredRoles| + |op.requiresAnyRole| > 0
  }

  predicate HasPermissions(op: Operation)
  {
    |op.requiredPermissions| + |op.requiresAnyPermission| > 0
  }

  function RoleGroup(op: Operation): string
  {
    if HasRoles(op) then
      ROLES_HEADER + Listing(Entries(op.requiredRoles, op.requiresAnyRole), ROLE_ANY_SEPARATOR)
    else ""
  }

  function PermissionGroup(op: Operation): string
  {
    if HasPermissions(op) then
      PERMISSIONS_HEADER + Listing(Entries(op.requiredPermissions, op.requiresAnyPermission), PERMISSION_ANY_SEPARATOR)
    else ""
  }

  /** The title of the authentication icon: the roles group, then the permissions group,
      joined only when both are there; the fallback phrase when neither is. */
  function Title(op: Operation): string
  {
    if !HasRoles(op) && !HasPermissions(op) then AUTHENTICATION_ONLY
    else RoleGroup(op) + (if HasRoles(op) && HasPermissions(op) then GROUP_SEPARATOR else "") + PermissionGroup(op)
  }

  /** The annotation for a given title: the authentication icon carrying the title, in
      the icons span, when authentication is required, and nothing otherwise. */
  function IconsOf(requiresAuthentication: bool, title: string): string
  {
    if requiresAuthentication then SPAN_OPEN + (AUTH_OPEN + title + AUTH_CLOSE) + SPAN_CLOSE else ""
  }

  /** The annotation of an operation. */
  function Icons(op: Operation): string
  {
    IconsOf(op.requiresAuthentication, Title(op))
  }

  // ---------------------------------------------------------------------------
  // Properties of the listing of one group

  /** A group's text is empty exactly when it lists nothing, and otherwise starts with a space. */
  lemma ListingEmpty(es: seq<Entry>, anySeparator: string)
    ensures Listing(es, anySeparator) == "" <==> es == []
    ensures es != [] ==> Listing(es, anySeparator)[0] == ' '
  {
    if es != [] {
      var ps := Pieces(es, anySeparator);
      assert ps[0] == " " + es[0].name + (if es[0].anyOf then "?" else "");
      assert Concat(ps) == ps[0] + Concat(ps[1..]);
    }
  }

  /** Listing one more entry appends that entry's piece, at its position. */
  lemma ListingSnoc(es: seq<Entry>, e: Entry, anySeparator: string)
    ensures Listing(es + [e], anySeparator) == Listing(es, anySeparator) + Piece(|es|, e, anySeparator)
  {
    assert Pieces(es + [e], anySeparator) == Pieces(es, anySeparator) + [Piece(|es|, e, anySeparator)];
    ConcatSnoc(Pieces(es, anySeparator), Piece(|es|, e, anySeparator));
  }

  /** A group's text is the required entries' text followed by the any-of entries' text,
      in configured order; an any-of entry has a separator before it unless it is the
      very first entry of the group, and carries a trailing `?`. */
  lemma RequiredBeforeAnyOf(required: seq<string>, anyOf: seq<string>, anySeparator: string)
    ensures Listing(Entries(required, anyOf), anySeparator)
         == Listing(Marked(required, false), anySeparator)
          + Concat(seq(|anyOf|, k requires 0 <= k < |anyOf| =>
                     (if required == [] && k == 0 then "" else anySeparator) + " " + anyOf[k] + "?"))
  {
    var es := Entries(required, anyOf);
    var n := |required|;
    var tail := seq(|anyOf|, k requires 0 <= k < |anyOf| =>
                  (if required == [] && k == 0 then "" else anySeparator) + " " + anyOf[k] + "?");
    assert Pieces(es, anySeparator) == Pieces(Marked(required, false), anySeparator) + tail by {
      forall k | 0 <= k < |es|
        ensures Pieces(es, anySeparator)[k] == (Pieces(Marked(required, false), anySeparator) + tail)[k]
      {
        if k >= n {
          assert es[k] == Entry(anyOf[k - n], true);
        }
      }
    }
    ConcatAppend(Pieces(Marked(required, false), anySeparator), tail);
  }

  /** The required entries are listed in order, comma-separated, each after a space. */
  lemma RequiredListing(required: seq<string>, anySeparator: string)
    ensures Listing(Marked(required, false), anySeparator)
         == Concat(seq(|required|, k requires 0 <= k < |required| =>
                     (if k == 0 then "" else REQUIRED_SEPARATOR) + " " + required[k]))
  {
    var es := Marked(required, false);
    forall k | 0 <= k < |es|
      ensures Pieces(es, anySeparator)[k] == (if k == 0 then "" else REQUIRED_SEPARATOR) + " " + required[k]
    {
      var text := Lead(k, es[k], anySeparator) + " " + required[k];
      assert text + "" == text;
    }
    assert Pieces(es, anySeparator) == seq(|required|, k requires 0 <= k < |required| =>
                                             (if k == 0 then "" else REQUIRED_SEPARATOR) + " " + required[k]);
  }

  // ---------------------------------------------------------------------------
  // Properties of the title

  /** The title is the bare "Requires Authentication" exactly when no role and no
      permission is listed. */
  lemma TitleFallback(op: Operation)
    ensures Title(op) == AUTHENTICATION_ONLY <==> !HasRoles(op) && !HasPermissions(op)
  {
    if HasRoles(op) {
      assert Title(op)[9] == 'R';
    } else if HasPermissions(op) {
      assert Title(op)[9] == 'P';
    }
  }

  /** The roles header opens the title exactly when roles are listed: the roles group
      always comes first. */
  lemma RolesHeaderFirst(op: Operation)
    ensures HasRoles(op) <==> ROLES_HEADER <= Title(op)
  {
    if !HasRoles(op) {
      assert Title(op)[9] != ROLES_HEADER[9];
    }
  }

  /** The position at which the permissions group starts: after the roles group and
      its separator. */
  function PermissionsAt(op: Operation): nat
  {
    |RoleGroup(op)| + (if HasRoles(op) then |GROUP_SEPARATOR| else 0)
  }

  /** The permissions header stands right after the roles group and its separator
      exactly when permissions are listed. */
  lemma PermissionsHeaderPlaced(op: Operation)
    ensures HasPermissions(op) <==>
      PermissionsAt(op) + |PERMISSIONS_HEADER| <= |Title(op)|
      && Title(op)[PermissionsAt(op)..PermissionsAt(op) + |PERMISSIONS_HEADER|] == PERMISSIONS_HEADER
  {
    var t, at := Title(op), PermissionsAt(op);
    if HasPermissions(op) {
      assert t == RoleGroup(op) + (if HasRoles(op) then GROUP_SEPARATOR else "") + PERMISSIONS_HEADER
        + Listing(Entries(op.requiredPermissions, op.requiresAnyPermission), PERMISSION_ANY_SEPARATOR);
    } else if HasRoles(op) {
      assert |t| < at;
    } else {
      assert at == 0 && t[9] != PERMISSIONS_HEADER[9];
    }
  }

  /** The ". " separator joins the two groups exactly when both are present. */
  lemma GroupSeparatorIffBoth(op: Operation)
    ensures Title(op) == RoleGroup(op) + GROUP_SEPARATOR + PermissionGroup(op)
        <==> HasRoles(op) && HasPermissions(op)
  {
    var joined := RoleGroup(op) + GROUP_SEPARATOR + PermissionGroup(op);
    if !HasRoles(op) && !HasPermissions(op) {
      assert joined == ". " && Title(op) != joined;
    } else if !HasRoles(op) || !HasPermissions(op) {
      assert |Title(op)| + 2 == |joined|;
    }
  }

  /** The summary of an operation that requires authentication and names one role. */
  lemma SingleRoleTitle()
    ensures Title(Operation(true, ["admin"], [], [], [])) == "Requires Roles: admin"
  {
    var op := Operation(true, ["admin"], [], [], []);
    var es := [Entry("admin", false)];
    assert Entries(["admin"], []) == es;
    assert Piece(0, es[0], ROLE_ANY_SEPARATOR) == " admin";
    assert Pieces(es, ROLE_ANY_SEPARATOR) == [" admin"];
    assert Concat([" admin"]) == " admin" + Concat([]);
  }

  /** The listing of one required entry `a` followed by one any-of entry `b`. */
  lemma RequiredThenAnyOf(anySeparator: string)
    ensures Listing(Entries(["a"], ["b"]), anySeparator) == " a" + anySeparator + " b?"
  {
    var first := [Entry("a", false)];
    assert Entries(["a"], ["b"]) == first + [Entry("b", true)];
    assert Piece(0, first[0], anySeparator) == "" + " " + "a" + "" == " a";
    assert Pieces(first, anySeparator) == [" a"];
    assert Concat([" a"]) == " a" + Concat([" a"][1..]);
    assert [" a"][1..] == [];
    assert Piece(1, Entry("b", true), anySeparator) == anySeparator + " " + "b" + "?";
    ListingSnoc(first, Entry("b", true), anySeparator);
  }

  /** An any-of role after another role is preceded by a comma and two spaces. */
  lemma AnyOfRoleSeparator()
    ensures Title(Operation(true, ["a"], ["b"], [], [])) == "Requires Roles: a,  b?"
  {
    var op := Operation(true, ["a"], ["b"], [], []);
    RequiredThenAnyOf(ROLE_ANY_SEPARATOR);
    assert PermissionGroup(op) == "";
    AppendEmpty(RoleGroup(op));
    assert Title(op) == RoleGroup(op);
  }

  /** An any-of permission after another permission is preceded by a comma and one space. */
  lemma AnyOfPermissionSeparator()
    ensures Title(Operation(true, [], [], ["a"], ["b"])) == "Requires Permissions: a, b?"
  {
    var op := Operation(true, [], [], ["a"], ["b"]);
    RequiredThenAnyOf(PERMISSION_ANY_SEPARATOR);
    assert RoleGroup(op) == "";
    AppendEmpty("");
    AppendEmpty(PermissionGroup(op));
    assert Title(op) == PermissionGroup(op);
  }

  // ---------------------------------------------------------------------------
  // The builder loops

  /** One pass of either loop appends the entry's piece at the next position: the
      separator goes in only when the builder already holds an entry. */
  lemma AppendStep(done: seq<Entry>, e: Entry, anySeparator: string, sb: string, next: string)
    requires sb == Listing(done, anySeparator)
    requires next == (if |sb| > 0 then sb + Lead(1, e, anySeparator) else sb) + Item(e)
    ensures next == Listing(done + [e], anySeparator)
  {
    ListingEmpty(done, anySeparator);
    ListingSnoc(done, e, anySeparator);
    if |sb| > 0 {
      AppendAssoc(sb, Lead(1, e, anySeparator), Item(e));
    } else {
      AppendEmpty(Item(e));
    }
  }

  /** Builds the text of one group from a fresh builder: the required names, then the
      any-of names, the separator being chosen by whether the builder is still empty. */
  method ListRequirements(required: seq<string>, anyOf: seq<string>, anySeparator: string)
    returns (sb: string)
    ensures sb == Listing(Entries(required, anyOf), anySeparator)
    ensures sb == "" <==> required == [] && anyOf == []
  {
    sb := "";
    for i := 0 to |required|
      invariant sb == Listing(Marked(required[..i], false), anySeparator)
    {
      ghost var before := sb;
      if |sb| > 0 {
        sb := sb + REQUIRED_SEPARATOR;
      }
      sb := sb + (" " + required[i]);
      ghost var e := Entry(required[i], false);
      AppendEmpty(" " + required[i]);
      AppendStep(Marked(required[..i], false), e, anySeparator, before, sb);
      assert Marked(required[..i + 1], false) == Marked(required[..i], false) + [e];
    }
    assert required[..|required|] == required;
    assert Marked(required, false) + Marked(anyOf[..0], true) == Marked(required, false);
    for j := 0 to |anyOf|
      invariant sb == Listing(Marked(required, false) + Marked(anyOf[..j], true), anySeparator)
    {
      ghost var before := sb;
      if |sb| > 0 {
        sb := sb + anySeparator;
      }
      sb := sb + (" " + anyOf[j] + "?");
      ghost var e := Entry(anyOf[j], true);
      ghost var done := Marked(required, false) + Marked(anyOf[..j], true);
      AppendStep(done, e, anySeparator, before, sb);
      assert Marked(anyOf[..j + 1], true) == Marked(anyOf[..j], true) + [e];
      assert Marked(required, false) + Marked(anyOf[..j + 1], true) == done + [e];
    }
    assert anyOf[..|anyOf|] == anyOf;
    ListingEmpty(Entries(required, anyOf), anySeparator);
  }

  /** Builds the title of the authentication icon: the roles group, the permissions
      group, or the fallback phrase, appended in that order to a fresh builder. */
  method DescribeRequirements(op: Operation) returns (title: string)
    ensures title == Title(op)
  {
    title := "";
    var hasRoles := |op.requiredRoles| + |op.requiresAnyRole| > 0;
    if hasRoles {
      title := title + ROLES_HEADER;
      var sbRoles := ListRequirements(op.requiredRoles, op.requiresAnyRole, ROLE_ANY_SEPARATOR);
      title := title + sbRoles;
    }
    ghost var roles := title;
    assert roles == RoleGroup(op);

    var hasPermissions := |op.requiredPermissions| + |op.requiresAnyPermission| > 0;
    if hasPermissions {
      if hasRoles {
        title := title + GROUP_SEPARATOR;
      }
      ghost var joined := title;
      title := title + PERMISSIONS_HEADER;
      var sbPermission := ListRequirements(op.requiredPermissions, op.requiresAnyPermission, PERMISSION_ANY_SEPARATOR);
      title := title + sbPermission;
      AppendAssoc(joined, PERMISSIONS_HEADER, sbPermission);
    }

    if !hasRoles && !hasPermissions {
      title := title + AUTHENTICATION_ONLY;
    }
  }

  /** Wrapping the icon builder in the icons span when it is non-empty gives the
      annotation, and that is empty exactly when authentication is not required. */
  lemma WrapIcons(op: Operation, title: string, sbIcons: string)
    requires op.requiresAuthentication ==> title == Title(op)
    requires sbIcons == if op.requiresAuthentication then AUTH_OPEN + title + AUTH_CLOSE else ""
    ensures var icons := if |sbIcons| > 0 then SPAN_OPEN + sbIcons + SPAN_CLOSE else "";
      icons == Icons(op) && (icons == "" <==> !op.requiresAuthentication)
  {
  }

  /** Builds the annotation of an operation. */
  method CreateIcons(op: Operation) returns (icons: string)
    ensures icons == Icons(op)
    ensures icons == "" <==> !op.requiresAuthentication
  {
    var sbIcons := "";
    var title := "";
    if op.requiresAuthentication {
      sbIcons := sbIcons + AUTH_OPEN;
      assert sbIcons == AUTH_OPEN;
      title := DescribeRequirements(op);
      sbIcons := sbIcons + title;
      sbIcons := sbIcons + AUTH_CLOSE;
    }
    WrapIcons(op, title, sbIcons);

    icons := if |sbIcons| > 0 then SPAN_OPEN + sbIcons + SPAN_CLOSE else "";
  }
}
