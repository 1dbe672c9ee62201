/** Access decisions over the model hierarchy: catalog, schema, table, column,
    key and foreign-key reference. */
module Rights {
  import opened Wrappers
  import opened Paths
  import opened Projections

  type Right = string
  type Role = string

  /** Python's False, None and True as decisions. */
  datatype Decision = Deny | Maybe | Allow

  predicate AtMost(a: Decision, b: Decision) {
    a == Deny || b == Allow || a == b
  }

  datatype Res =
    | Catalog
    | Schema(schema: string)
    | Table(schema: string, table: string)
    | Column(schema: string, table: string, column: string)
    | Key(schema: string, table: string, columns: seq<string>)
    | FkeyRef(schema: string, table: string, columns: seq<string>, unique: Res)

  /** `types` are the rights a binding may grant and `scope` the roles it
      applies to. */
  datatype Binding = Binding(types: set<Right>, scope: set<Role>, doc: Doc)

  /** An ACL may be stored as null, which overrides a parent but grants nothing. */
  type Acls = map<Right, Option<set<Role>>>

  /** `None` is a binding suppressed with the literal false. */
  type Dynacls = map<string, Option<Binding>>

  datatype Policy = Policy(acls: map<Res, Acls>, dynacls: map<Res, Dynacls>, past: Option<set<Res>>)

  /** All access names that the ACL rules know. */
  const ALL_RIGHTS: set<Right> :=
    {"owner", "create", "write", "insert", "update", "delete", "select", "enumerate"}

  /** `sufficient_rights`: the other ACLs whose members hold the named right. */
  function Sufficient(right: Right): set<Right> {
    match right
    case "create" => {"owner"}
    case "write" => {"owner"}
    case "insert" => {"owner", "write"}
    case "update" => {"owner", "write"}
    case "delete" => {"owner", "write"}
    case "select" => {"owner", "write", "update", "delete"}
    case "enumerate" => {"owner", "create", "write", "insert", "update", "delete", "select"}
    case _ => {}
  }

  function AclsOf(w: Policy, r: Res): Acls {
    if r in w.acls then w.acls[r] else map[]
  }

  function DynaclsOf(w: Policy, r: Res): Dynacls {
    if r in w.dynacls then w.dynacls[r] else map[]
  }

  /** The client is a member of an ACL stored under the right or under one
      sufficient for it. */
  predicate Grants(acls: Acls, right: Right, roles: set<Role>) {
    exists a | a in acls ::
      (a == right || a in Sufficient(right)) && acls[a].Some? && acls[a].value * roles != {}
  }

  /** `AclBinding.inscope` */
  predicate InScope(b: Binding, right: Right, roles: set<Role>) {
    b.scope * roles != {} && b.types * (Sufficient(right) + {right}) != {}
  }

  /** Some binding not overridden by `hidden` is in scope. */
  predicate SomeInScope(d: Dynacls, hidden: Dynacls, right: Right, roles: set<Role>) {
    exists n | n in d :: n !in hidden && d[n].Some? && InScope(d[n].value, right, roles)
  }

  predicate HasDynacls(r: Res) {
    r.Table? || r.Column? || r.FkeyRef?
  }

  function Parent(r: Res): Option<Res> {
    match r
    case Catalog => None
    case Schema(_) => Some(Catalog)
    case Table(s, _) => Some(Schema(s))
    case Column(s, t, _) => Some(Table(s, t))
    case Key(s, t, _) => Some(Table(s, t))
    case FkeyRef(s, t, _, _) => Some(Table(s, t))
  }

  function Level(r: Res): nat {
    match r
    case Catalog => 0
    case Schema(_) => 1
    case Table(_, _) => 2
    case Column(_, _, _) => 3
    case Key(_, _, _) => 4
    case FkeyRef(_, _, _, _) => 5
  }

  predicate Registry(r: Res) {
    (r.Table? || r.Column?) && r.schema == "ermrest" && r.table == "registry"
  }

  /** A table with no history to show in a historical request. */
  predicate LostToHistory(w: Policy, r: Res) {
    r.Table? && w.past.Some? && r !in w.past.value
  }

  /** Rules written into the code for particular columns. */
  predicate ColumnBlocked(r: Res, right: Right)
    requires r.Column?
  {
    || (r.column in {"RMT", "RMB"} && right in {"insert", "update", "write"})
    || (r.column in {"RID", "RCB"} && right in {"update", "write"})
    || (Registry(r) && r.column == "descriptor")
    || (Registry(r) && r.column in {"id", "is_catalog", "deleted_on", "owner", "alias_target"}
        && right in {"insert", "update", "write"})
  }

  predicate TableBlocked(w: Policy, r: Res, right: Right)
    requires r.Table?
  {
    (Registry(r) && right in {"insert", "delete"}) || LostToHistory(w, r)
  }

  /** Dynamic bindings, own then inherited unless overridden by name; a
      resource without bindings passes on an undecided parent. */
  function DynamicDecision(w: Policy, r: Res, right: Right, roles: set<Role>, above: Decision): Decision {
    var up := Parent(r);
    if HasDynacls(r) then
      if SomeInScope(DynaclsOf(w, r), map[], right, roles) then Maybe
      else if up.Some? && HasDynacls(up.value)
        && SomeInScope(DynaclsOf(w, up.value), DynaclsOf(w, r), right, roles) then Maybe
      else Deny
    else if up.Some? && above == Maybe then Maybe
    else Deny
  }

  /** The decision every ACL-bearing resource shares: own ACLs, then ownership
      of the parent, then the parent's ACL when this one does not override it,
      then dynamic bindings. */
  function BaseRight(w: Policy, r: Res, right: Right, roles: set<Role>): Decision
    decreases Level(r), 0
  {
    var up := Parent(r);
    if roles == {"*"} && right !in {"enumerate", "select"} then Deny
    else if Grants(AclsOf(w, r), right, roles) then Allow
    else if up.Some? && HasRight(w, up.value, "owner", roles) == Allow then Allow
    else if up.Some? && right !in AclsOf(w, r) && HasRight(w, up.value, right, roles) == Allow then Allow
    else DynamicDecision(w, r, right, roles, if up.Some? then HasRight(w, up.value, right, roles) else Deny)
  }

  /** `has_right` of each resource class. A key only ever answers for
      enumeration. */
  function HasRight(w: Policy, r: Res, right: Right, roles: set<Role>): Decision
    decreases Level(r), 1
  {
    match r
    case Catalog => BaseRight(w, r, right, roles)
    case Schema(_) => BaseRight(w, r, right, roles)
    case Table(s, _) =>
      if HasRight(w, Schema(s), "enumerate", roles) != Allow then Deny
      else if TableBlocked(w, r, right) then Deny
      else BaseRight(w, r, right, roles)
    case Column(s, t, _) =>
      if ColumnBlocked(r, right) then Deny
      else if HasRight(w, Table(s, t), right, roles) == Deny then Deny
      else BaseRight(w, r, right, roles)
    case Key(s, t, cols) =>
      if exists c | c in cols :: HasRight(w, Column(s, t, c), "enumerate", roles) != Allow then Deny
      else if exists c | c in cols :: HasRight(w, Column(s, t, c), "select", roles) == Deny then Deny
      else Allow
    case FkeyRef(s, t, cols, unique) =>
      if right == "enumerate"
         && ((unique.Key? && HasRight(w, unique, "enumerate", roles) != Allow)
             || ColumnsHaveRight(w, s, t, cols, "enumerate", roles) != Allow
             || ColumnsHaveRight(w, s, t, cols, "select", roles) == Deny)
      then Deny
      else if right in {"update", "insert"} && right !in AclsOf(w, r) then Allow
      else BaseRight(w, r, right, roles)
  }

  /** `ForeignKey.columns_have_right`: the first decision that is not True. */
  function ColumnsHaveRight(w: Policy, s: string, t: string, cols: seq<string>, right: Right,
      roles: set<Role>): Decision
    decreases 4, |cols|
  {
    if cols == [] then Allow
    else
      var d := HasRight(w, Column(s, t, cols[0]), right, roles);
      if d != Allow then d else ColumnsHaveRight(w, s, t, cols[1..], right, roles)
  }

  /** `SystemColumn.has_data_right` */
  function DataRight(w: Policy, r: Res, right: Right, roles: set<Role>): Decision
    requires r.Column?
  {
    if r.column !in {"RID", "RCT", "RMT", "RCB", "RMB"} then HasRight(w, r, right, roles)
    else if r.column in {"RID", "RCB", "RCT"} && right == "insert" then
      if HasRight(w, Catalog, "owner", roles) == Allow then Allow
      else if r.column == "RID" then Maybe else Deny
    else if right in {"owner", "insert", "update"} then Deny
    else HasRight(w, r, right, roles)
  }

  // ---------------------------------------------------- sufficient rights

  /** The rights that a right brings with it directly. */
  function Brings(right: Right): set<Right> {
    match right
    case "owner" => {"create", "write"}
    case "create" => {"enumerate"}
    case "write" => {"insert", "update", "delete"}
    case "insert" => {"enumerate"}
    case "update" => {"select"}
    case "delete" => {"select"}
    case "select" => {"enumerate"}
    case _ => {}
  }

  /** One right suffices for another exactly if it brings that one directly, or
      brings one that suffices. Since what is brought is always weaker, this
      determines the table. */
  lemma SufficientExactly(high: Right, low: Right)
    ensures high in Sufficient(low) <==> low in Brings(high) || exists mid | mid in Brings(high) ::
      mid in Sufficient(low)
    ensures forall mid | mid in Brings(high) :: Strength(mid) < Strength(high)
  {
    if low in {"insert", "update", "delete"} {
      assert "write" in Brings("owner") && "write" in Sufficient(low);
    } else if low == "select" {
      assert "update" in Brings("write") && "write" in Brings("owner");
    } else if low == "enumerate" {
      assert "select" in Brings("update") && "select" in Brings("delete") && "update" in Brings("write");
      assert "write" in Brings("owner");
    }
  }

  function Strength(right: Right): nat {
    match right
    case "owner" => 4
    case "write" => 3
    case "create" => 2
    case "insert" => 2
    case "update" => 2
    case "delete" => 2
    case "select" => 1
    case _ => 0
  }

  /** A binding is in scope for a client with one of its roles, if it may grant
      the right itself or one that brings it. */
  lemma InScopeExactly(b: Binding, right: Right, roles: set<Role>)
    ensures InScope(b, right, roles) <==>
      && (exists role | role in roles :: role in b.scope)
      && (exists t | t in b.types :: t == right || t in Sufficient(right))
  {
    if role :| role in roles && role in b.scope {
      assert role in b.scope * roles;
    }
    if t :| t in b.types && (t == right || t in Sufficient(right)) {
      assert t in b.types * (Sufficient(right) + {right});
    }
    if InScope(b, right, roles) {
      var role :| role in b.scope * roles;
      var t :| t in b.types * (Sufficient(right) + {right});
    }
  }

  /** What no one may do, owners included: set the time and author of changes or
      alter the identity and creator of a row; touch the managed columns of the
      registry, or read its descriptors; add or drop registry rows; and use a
      table that a past snapshot does not have. All else is left to ACLs. */
  lemma FixedRules(w: Policy, r: Res, right: Right, roles: set<Role>)
    requires r.Column? || r.Table?
    ensures var registry := r.schema == "ermrest" && r.table == "registry";
      var fixed := if r.Table? then (registry && right in {"insert", "delete"}) || (w.past.Some? && r !in w.past.value)
        else
          || (right in {"update", "write"} && r.column in {"RMT", "RMB", "RID", "RCB"})
          || (right == "insert" && r.column in {"RMT", "RMB"})
          || (registry && r.column == "descriptor")
          || (registry && right in {"insert", "update", "write"}
              && r.column in {"id", "is_catalog", "deleted_on", "owner", "alias_target"});
      && (fixed ==> HasRight(w, r, right, roles) == Deny)
      && (fixed <==> if r.Table? then TableBlocked(w, r, right) else ColumnBlocked(r, right))
  {
  }

  // ------------------------------------------------- decisions spelled out

  /** The bindings that bear on a resource: its parent's, overridden by name by
      its own. */
  function Effective(w: Policy, r: Res): Dynacls {
    var up := Parent(r);
    (if up.Some? && HasDynacls(up.value) then DynaclsOf(w, up.value) else map[]) + DynaclsOf(w, r)
  }

  predicate SomeEffective(w: Policy, r: Res, right: Right, roles: set<Role>) {
    exists n | n in Effective(w, r) :: Effective(w, r)[n].Some? && InScope(Effective(w, r)[n].value, right, roles)
  }

  /** A client that is not logged in changes nothing. */
  predicate AnonymousChange(right: Right, roles: set<Role>) {
    roles == {"*"} && right !in {"enumerate", "select"}
  }

  /** An ACL of the resource admits the client, or the client owns the parent, or
      holds the right there and no ACL of the resource stands against it. */
  predicate StaticGrant(w: Policy, r: Res, right: Right, roles: set<Role>) {
    var up := Parent(r);
    || Grants(AclsOf(w, r), right, roles)
    || (up.Some? && HasRight(w, up.value, "owner", roles) == Allow)
    || (up.Some? && right !in AclsOf(w, r) && HasRight(w, up.value, right, roles) == Allow)
  }

  /** The decision on a column: undecided if and only if nothing refuses it, no
      static grant reaches it, and some binding of the table or the column that
      is not overridden by name is in scope. */
  lemma ColumnDecision(w: Policy, r: Res, right: Right, roles: set<Role>)
    requires r.Column?
    ensures var d, barred := HasRight(w, r, right, roles),
        ColumnBlocked(r, right) || HasRight(w, Parent(r).value, right, roles) == Deny || AnonymousChange(right, roles);
      && (d == Allow <==> !barred && StaticGrant(w, r, right, roles))
      && (d == Maybe <==> !barred && !StaticGrant(w, r, right, roles) && SomeEffective(w, r, right, roles))
  {
    EffectiveInScope(w, r, right, roles);
  }

  lemma EffectiveInScope(w: Policy, r: Res, right: Right, roles: set<Role>)
    requires HasDynacls(r)
    ensures DynamicDecision(w, r, right, roles, Deny) == if SomeEffective(w, r, right, roles) then Maybe else Deny
    ensures forall above :: DynamicDecision(w, r, right, roles, above) == DynamicDecision(w, r, right, roles, Deny)
  {
    var own, all := DynaclsOf(w, r), Effective(w, r);
    if n :| n in own && own[n].Some? && InScope(own[n].value, right, roles) {
      assert all[n] == own[n];
    }
    var up := Parent(r);
    if up.Some? && HasDynacls(up.value) {
      var above := DynaclsOf(w, up.value);
      if n :| n in above && n !in own && above[n].Some? && InScope(above[n].value, right, roles) {
        assert all[n] == above[n];
      }
    }
  }

  /** The decision on a table: its own bindings alone bear on it. */
  lemma TableDecision(w: Policy, r: Res, right: Right, roles: set<Role>)
    requires r.Table?
    ensures var d, barred := HasRight(w, r, right, roles),
        HasRight(w, Parent(r).value, "enumerate", roles) != Allow || TableBlocked(w, r, right)
        || AnonymousChange(right, roles);
      && (d == Allow <==> !barred && StaticGrant(w, r, right, roles))
      && (d == Maybe <==> !barred && !StaticGrant(w, r, right, roles) && SomeEffective(w, r, right, roles))
  {
    EffectiveInScope(w, r, right, roles);
  }

  lemma {:induction false} AllColumnsAllowed(w: Policy, s: string, t: string, cols: seq<string>, right: Right,
      roles: set<Role>)
    ensures ColumnsHaveRight(w, s, t, cols, right, roles) == Allow <==>
      forall c | c in cols :: HasRight(w, Column(s, t, c), right, roles) == Allow
  {
    if cols != [] {
      AllColumnsAllowed(w, s, t, cols[1..], right, roles);
    }
  }

  /** A key can be enumerated, or not, as its columns can; it is never undecided. */
  lemma KeyDecision(w: Policy, s: string, t: string, cols: seq<string>, right: Right, roles: set<Role>)
    ensures var d := HasRight(w, Key(s, t, cols), right, roles);
      && d != Maybe
      && (d == Allow <==> forall c | c in cols ::
        HasRight(w, Column(s, t, c), "enumerate", roles) == Allow
          && HasRight(w, Column(s, t, c), "select", roles) != Deny)
  {
  }

  /** The decision on a foreign-key reference: it can be enumerated only if the
      key it refers to and all its columns can, and reading them is not refused;
      updates and inserts are free unless it has an ACL for them; otherwise ACLs,
      ownership and bindings decide, those of its table included. */
  lemma FkeyDecision(w: Policy, s: string, t: string, cols: seq<string>, unique: Res, right: Right, roles: set<Role>)
    ensures var r := FkeyRef(s, t, cols, unique);
      var d := HasRight(w, r, right, roles);
      var hidden := right == "enumerate" && (
        || (unique.Key? && HasRight(w, unique, "enumerate", roles) != Allow)
        || (exists c | c in cols :: HasRight(w, Column(s, t, c), "enumerate", roles) != Allow)
        || ColumnsHaveRight(w, s, t, cols, "select", roles) == Deny);
      var free := (right == "update" || right == "insert") && right !in AclsOf(w, r);
      && (hidden ==> d == Deny)
      && (free ==> d == Allow)
      && (!hidden && !free ==>
        && (d == Allow <==> !AnonymousChange(right, roles) && StaticGrant(w, r, right, roles))
        && (d == Maybe <==>
          !AnonymousChange(right, roles) && !StaticGrant(w, r, right, roles) && SomeEffective(w, r, right, roles)))
  {
    AllColumnsAllowed(w, s, t, cols, "enumerate", roles);
    EffectiveInScope(w, FkeyRef(s, t, cols, unique), right, roles);
  }

  /** The right to the data of a column: for the five system columns, no one
      updates them; only an owner of the catalog inserts values of its own, but
      a RID may be left to the bindings. */
  lemma DataRightExactly(w: Policy, r: Res, right: Right, roles: set<Role>)
    requires r.Column?
    ensures var d, system := DataRight(w, r, right, roles), r.column in {"RID", "RCT", "RMT", "RCB", "RMB"};
      && (!system || right !in {"owner", "insert", "update"} ==> d == HasRight(w, r, right, roles))
      && (system && right in {"owner", "update"} ==> d == Deny)
      && (r.column in {"RMT", "RMB"} && right == "insert" ==> d == Deny)
      && (r.column in {"RID", "RCT", "RCB"} && right == "insert" ==>
        && (d == Allow <==> HasRight(w, Catalog, "owner", roles) == Allow)
        && (d == Maybe <==> HasRight(w, Catalog, "owner", roles) != Allow && r.column == "RID"))
  {
  }

  // ---------------------------------------------------------- monotonicity

  lemma GrantsMonotone(acls: Acls, right: Right, few: set<Role>, more: set<Role>)
    requires few <= more && Grants(acls, right, few)
    ensures Grants(acls, right, more)
  {
  }

  lemma InScopeMonotone(d: Dynacls, hidden: Dynacls, right: Right, few: set<Role>, more: set<Role>)
    requires few <= more && SomeInScope(d, hidden, right, few)
    ensures SomeInScope(d, hidden, right, more)
  {
  }

  predicate Hierarchical(r: Res) {
    !r.FkeyRef?
  }

  /** A client with no roles at all is denied everything. */
  lemma {:induction false} NoRolesNoRights(w: Policy, r: Res, right: Right)
    requires Hierarchical(r) && !r.Key?
    ensures HasRight(w, r, right, {}) == Deny
    decreases Level(r)
  {
    if Parent(r).Some? {
      NoRolesNoRights(w, Parent(r).value, "owner");
      NoRolesNoRights(w, Parent(r).value, right);
    }
  }

  /** Gaining roles never lowers a decision. */
  lemma {:induction false} RightsMonotone(w: Policy, r: Res, right: Right, few: set<Role>, more: set<Role>)
    requires few <= more && Hierarchical(r)
    ensures AtMost(HasRight(w, r, right, few), HasRight(w, r, right, more))
    decreases Level(r), 1
  {
    match r
    case Catalog => BaseMonotone(w, r, right, few, more);
    case Schema(_) => BaseMonotone(w, r, right, few, more);
    case Table(s, _) =>
      RightsMonotone(w, Schema(s), "enumerate", few, more);
      BaseMonotone(w, r, right, few, more);
    case Column(s, t, _) =>
      RightsMonotone(w, Table(s, t), right, few, more);
      BaseMonotone(w, r, right, few, more);
    case Key(s, t, cols) =>
      forall c | c in cols
        ensures AtMost(HasRight(w, Column(s, t, c), "enumerate", few), HasRight(w, Column(s, t, c), "enumerate", more))
        ensures AtMost(HasRight(w, Column(s, t, c), "select", few), HasRight(w, Column(s, t, c), "select", more))
      {
        RightsMonotone(w, Column(s, t, c), "enumerate", few, more);
        RightsMonotone(w, Column(s, t, c), "select", few, more);
      }
  }

  /** So it is for the right to a column's data. */
  lemma DataRightMonotone(w: Policy, r: Res, right: Right, few: set<Role>, more: set<Role>)
    requires few <= more && r.Column?
    ensures AtMost(DataRight(w, r, right, few), DataRight(w, r, right, more))
  {
    RightsMonotone(w, r, right, few, more);
    RightsMonotone(w, Catalog, "owner", few, more);
  }

  lemma {:induction false} BaseMonotone(w: Policy, r: Res, right: Right, few: set<Role>, more: set<Role>)
    requires few <= more && !r.Key?
    ensures AtMost(BaseRight(w, r, right, few), BaseRight(w, r, right, more))
    decreases Level(r), 0
  {
    var up := Parent(r);
    if up.Some? {
      RightsMonotone(w, up.value, "owner", few, more);
      RightsMonotone(w, up.value, right, few, more);
      if few == {} {
        NoRolesNoRights(w, up.value, "owner");
        NoRolesNoRights(w, up.value, right);
      }
      assert r.Schema? ==> HasRight(w, up.value, right, few) != Maybe;
      DynamicMonotone(w, r, right, few, more, HasRight(w, up.value, right, few), HasRight(w, up.value, right, more));
    } else {
      DynamicMonotone(w, r, right, few, more, Deny, Deny);
    }
    if Grants(AclsOf(w, r), right, few) { GrantsMonotone(AclsOf(w, r), right, few, more); }
  }

  lemma DynamicMonotone(w: Policy, r: Res, right: Right, few: set<Role>, more: set<Role>, a: Decision, b: Decision)
    requires few <= more && AtMost(a, b) && (a == Maybe ==> b != Allow || HasDynacls(r))
    ensures AtMost(DynamicDecision(w, r, right, few, a), DynamicDecision(w, r, right, more, b))
  {
    var up := Parent(r);
    if SomeInScope(DynaclsOf(w, r), map[], right, few) {
      InScopeMonotone(DynaclsOf(w, r), map[], right, few, more);
    }
    if up.Some? && SomeInScope(DynaclsOf(w, up.value), DynaclsOf(w, r), right, few) {
      InScopeMonotone(DynaclsOf(w, up.value), DynaclsOf(w, r), right, few, more);
    }
  }

  /** Foreign-key columns: being wholly allowed is monotone. */
  lemma {:induction false} ColumnsAllowedMonotone(w: Policy, s: string, t: string, cols: seq<string>, right: Right,
      few: set<Role>, more: set<Role>)
    requires few <= more
    requires ColumnsHaveRight(w, s, t, cols, right, few) == Allow
    ensures ColumnsHaveRight(w, s, t, cols, right, more) == Allow
  {
    if cols != [] {
      RightsMonotone(w, Column(s, t, cols[0]), right, few, more);
      ColumnsAllowedMonotone(w, s, t, cols[1..], right, few, more);
    }
  }

  /** Column `i` decides `d`, and every column before it is allowed. */
  predicate StopsWith(w: Policy, s: string, t: string, cols: seq<string>, right: Right, roles: set<Role>, i: int,
      d: Decision) {
    && 0 <= i < |cols|
    && HasRight(w, Column(s, t, cols[i]), right, roles) == d
    && forall j | 0 <= j < i :: HasRight(w, Column(s, t, cols[j]), right, roles) == Allow
  }

  /** A decision short of Allow is that of the first column not allowed. */
  lemma {:induction false} FirstStop(w: Policy, s: string, t: string, cols: seq<string>, right: Right, roles: set<Role>,
      d: Decision)
    requires d != Allow
    ensures ColumnsHaveRight(w, s, t, cols, right, roles) == d <==>
      exists i :: StopsWith(w, s, t, cols, right, roles, i, d)
  {
    if cols != [] {
      if HasRight(w, Column(s, t, cols[0]), right, roles) == Allow {
        var rest := cols[1..];
        FirstStop(w, s, t, rest, right, roles, d);
        if i :| StopsWith(w, s, t, rest, right, roles, i, d) {
          assert forall j | 1 <= j < i + 1 :: cols[j] == rest[j - 1];
          assert StopsWith(w, s, t, cols, right, roles, i + 1, d);
        }
        if i :| StopsWith(w, s, t, cols, right, roles, i, d) {
          assert forall j | 0 <= j < i - 1 :: rest[j] == cols[j + 1];
          assert StopsWith(w, s, t, rest, right, roles, i - 1, d);
        }
      } else if HasRight(w, Column(s, t, cols[0]), right, roles) == d {
        assert StopsWith(w, s, t, cols, right, roles, 0, d);
      }
    }
  }

  /** With the fewer roles the scan stops at an undecided column; the further
      roles allow it and carry the scan to a later column that is refused. */
  ghost predicate LaterColumnRefused(w: Policy, s: string, t: string, cols: seq<string>, right: Right, few: set<Role>,
      more: set<Role>) {
    exists i, j :: i < j && StopsWith(w, s, t, cols, right, few, i, Maybe)
      && StopsWith(w, s, t, cols, right, more, j, Deny)
  }

  /** Because only its first column that is not allowed is reported, the
      decision on a column list can drop when roles are gained: exactly when
      the scan moves from an undecided column to a later refused one. */
  lemma ColumnsMonotoneUnlessLaterDenied(w: Policy, s: string, t: string, cols: seq<string>, right: Right,
      few: set<Role>, more: set<Role>)
    requires few <= more
    ensures AtMost(ColumnsHaveRight(w, s, t, cols, right, few), ColumnsHaveRight(w, s, t, cols, right, more))
            <==> !LaterColumnRefused(w, s, t, cols, right, few, more)
  {
    FirstStop(w, s, t, cols, right, few, Maybe);
    FirstStop(w, s, t, cols, right, more, Deny);
    if ColumnsHaveRight(w, s, t, cols, right, few) == Allow {
      ColumnsAllowedMonotone(w, s, t, cols, right, few, more);
    }
    if ColumnsHaveRight(w, s, t, cols, right, few) == Maybe && ColumnsHaveRight(w, s, t, cols, right, more) == Deny {
      var i :| StopsWith(w, s, t, cols, right, few, i, Maybe);
      var j :| StopsWith(w, s, t, cols, right, more, j, Deny);
      forall k | 0 <= k <= i ensures HasRight(w, Column(s, t, cols[k]), right, more) != Deny {
        RightsMonotone(w, Column(s, t, cols[k]), right, few, more);
      }
      assert i < j;
    }
  }

  /** A foreign-key reference: its decision drops with more roles if and only if
      it is about enumeration, the reference was enumerable at all, and reading
      its columns drops. Every other right on it is monotone. */
  lemma FkeyRightsMonotoneUnlessLaterDenied(w: Policy, s: string, t: string, cols: seq<string>, unique: Res,
      right: Right, few: set<Role>, more: set<Role>)
    requires few <= more
    ensures var r := FkeyRef(s, t, cols, unique);
      AtMost(HasRight(w, r, right, few), HasRight(w, r, right, more))
      <==>
      (right == "enumerate" && HasRight(w, r, right, few) != Deny ==>
        !LaterColumnRefused(w, s, t, cols, "select", few, more))
  {
    var r := FkeyRef(s, t, cols, unique);
    BaseMonotone(w, r, right, few, more);
    if right == "enumerate" && HasRight(w, r, right, few) != Deny {
      if unique.Key? {
        RightsMonotone(w, unique, "enumerate", few, more);
      }
      ColumnsAllowedMonotone(w, s, t, cols, "enumerate", few, more);
      ColumnsMonotoneUnlessLaterDenied(w, s, t, cols, "select", few, more);
      FirstStop(w, s, t, cols, "select", more, Deny);
    }
  }

  /** Column A is dynamically readable, and readable outright to members of
      "g"; column B is closed to everyone; the catalog is public. */
  function SplitPolicy(): Policy {
    Policy(
      map[Catalog := map["enumerate" := Some({"*"}), "select" := Some({"*"})],
          Column("s", "t", "A") := map["select" := Some({"g"})],
          Column("s", "t", "B") := map["select" := Some({})]],
      map[Column("s", "t", "A") := map["readers" := Some(ReadersBinding())]],
      None)
  }

  function ReadersBinding(): Binding {
    Binding({"select"}, {"*"}, Doc([], "A", NonNull))
  }

  lemma ReadersInScope(roles: set<Role>)
    requires "*" in roles
    ensures InScope(ReadersBinding(), "select", roles)
  {
    assert "*" in ReadersBinding().scope * roles;
    assert "select" in ReadersBinding().types * (Sufficient("select") + {"select"});
  }

  /** The catalog is open for reading to everyone, and has no owner. */
  ghost predicate PublicCatalog(w: Policy) {
    && w.past.None? && Catalog in w.acls && w.acls[Catalog].Keys == {"enumerate", "select"}
    && w.acls[Catalog]["enumerate"] == Some({"*"}) && w.acls[Catalog]["select"] == Some({"*"})
  }

  /** A right that everyone has on the resource, which no one owns. */
  predicate Public(w: Policy, r: Res, right: Right, roles: set<Role>) {
    HasRight(w, r, right, roles) == Allow && HasRight(w, r, "owner", roles) == Deny
  }

  lemma PublicRoot(w: Policy, right: Right, roles: set<Role>)
    requires PublicCatalog(w) && "*" in roles && right in {"enumerate", "select"}
    ensures Public(w, Catalog, right, roles)
  {
    assert "*" in w.acls[Catalog][right].value * roles;
    assert Grants(AclsOf(w, Catalog), right, roles);
  }

  /** A schema or table without ACLs and bindings is as public as its parent. */
  lemma PublicBelow(w: Policy, up: Res, r: Res, right: Right, roles: set<Role>)
    requires (r.Schema? || r.Table?) && Parent(r) == Some(up) && w.past.None? && right in {"enumerate", "select"}
    requires AclsOf(w, r) == map[] && DynaclsOf(w, r) == map[]
    requires r.Table? ==> HasRight(w, up, "enumerate", roles) == Allow
    requires Public(w, up, right, roles)
    ensures Public(w, r, right, roles)
  {
  }

  lemma PublicSchema(w: Policy, r: Res, right: Right, roles: set<Role>)
    requires PublicCatalog(w) && "*" in roles && right in {"enumerate", "select"}
    requires r.Schema? && AclsOf(w, r) == map[] && DynaclsOf(w, r) == map[]
    ensures Public(w, r, right, roles)
  {
    PublicRoot(w, right, roles);
    PublicBelow(w, Catalog, r, right, roles);
  }

  lemma PublicTable(w: Policy, schema: Res, r: Res, right: Right, roles: set<Role>)
    requires PublicCatalog(w) && "*" in roles && right in {"enumerate", "select"}
    requires schema.Schema? && AclsOf(w, schema) == map[] && DynaclsOf(w, schema) == map[]
    requires r.Table? && Parent(r) == Some(schema) && AclsOf(w, r) == map[] && DynaclsOf(w, r) == map[]
    ensures Public(w, r, right, roles)
  {
    PublicSchema(w, schema, "enumerate", roles);
    PublicSchema(w, schema, right, roles);
    PublicBelow(w, schema, r, right, roles);
  }

  lemma SplitPolicyShape(w: Policy)
    requires w == SplitPolicy()
    ensures PublicCatalog(w)
    ensures forall r | r == Schema("s") || r == Table("s", "t") :: AclsOf(w, r) == map[] && DynaclsOf(w, r) == map[]
  {
  }

  lemma SplitTable(w: Policy, right: Right, roles: set<Role>)
    requires w == SplitPolicy() && "*" in roles && right in {"enumerate", "select"}
    ensures Public(w, Table("s", "t"), right, roles)
  {
    SplitPolicyShape(w);
    PublicTable(w, Schema("s"), Table("s", "t"), right, roles);
  }

  /** A column that overrides the ACL of an allowed, unowned table. */
  lemma OverridingColumn(w: Policy, r: Res, right: Right, roles: set<Role>)
    requires r.Column? && !ColumnBlocked(r, right) && roles != {"*"} && right in AclsOf(w, r)
    requires HasRight(w, Parent(r).value, right, roles) == Allow
    requires HasRight(w, Parent(r).value, "owner", roles) != Allow
    requires DynaclsOf(w, Parent(r).value) == map[]
    ensures HasRight(w, r, right, roles) ==
            if Grants(AclsOf(w, r), right, roles) then Allow
            else if SomeInScope(DynaclsOf(w, r), map[], right, roles) then Maybe else Deny
  {
  }

  lemma SplitColumns(w: Policy, a: Res, b: Res, roles: set<Role>)
    requires w == SplitPolicy() && a == Column("s", "t", "A") && b == Column("s", "t", "B")
    requires "*" in roles && roles != {"*"}
    ensures HasRight(w, a, "select", roles) == if "g" in roles then Allow else Maybe
    ensures HasRight(w, b, "select", roles) == Deny
  {
    SplitTable(w, "select", roles);
    OverridingColumn(w, a, "select", roles);
    OverridingColumn(w, b, "select", roles);
    ReadersInScope(roles);
    assert Grants(AclsOf(w, a), "select", roles) <==> {"g"} * roles != {};
    assert "g" in roles ==> "g" in {"g"} * roles;
    assert DynaclsOf(w, a)["readers"] == Some(ReadersBinding());
  }

  /** The drop does happen. */
  lemma CompositeFkeyDecisionCanDrop()
    ensures ColumnsHaveRight(SplitPolicy(), "s", "t", ["A", "B"], "select", {"*", "u"}) == Maybe
    ensures ColumnsHaveRight(SplitPolicy(), "s", "t", ["A", "B"], "select", {"*", "u", "g"}) == Deny
  {
    assert {"*", "u"} != {"*"} && {"*", "u", "g"} != {"*"} by {
      assert "u" in {"*", "u"} && "u" in {"*", "u", "g"};
    }
    SplitColumns(SplitPolicy(), Column("s", "t", "A"), Column("s", "t", "B"), {"*", "u"});
    SplitColumns(SplitPolicy(), Column("s", "t", "A"), Column("s", "t", "B"), {"*", "u", "g"});
    assert ["A", "B"][1..] == ["B"];
    assert ColumnsHaveRight(SplitPolicy(), "s", "t", ["B"], "select", {"*", "u", "g"}) == Deny;
  }

  lemma SplitEnumerate(w: Policy, c: string, roles: set<Role>)
    requires w == SplitPolicy() && "*" in roles && roles != {"*"}
    ensures HasRight(w, Column("s", "t", c), "enumerate", roles) == Allow
    ensures HasRight(w, Table("s", "t"), "enumerate", roles) == Allow
  {
    SplitTable(w, "enumerate", roles);
    assert "enumerate" !in AclsOf(w, Column("s", "t", c));
  }

  /** A reference that inherits the right to enumerate its table. */
  lemma InheritedEnumeration(w: Policy, s: string, t: string, cols: seq<string>, unique: Res, roles: set<Role>)
    requires "enumerate" !in AclsOf(w, FkeyRef(s, t, cols, unique))
    requires HasRight(w, Table(s, t), "enumerate", roles) == Allow
    requires ColumnsHaveRight(w, s, t, cols, "enumerate", roles) == Allow
    requires unique.Key? ==> HasRight(w, unique, "enumerate", roles) == Allow
    ensures HasRight(w, FkeyRef(s, t, cols, unique), "enumerate", roles)
      == if ColumnsHaveRight(w, s, t, cols, "select", roles) == Deny then Deny else Allow
  {
  }

  lemma SplitColumnsEnumerate(w: Policy, cols: seq<string>, roles: set<Role>)
    requires w == SplitPolicy() && "*" in roles && roles != {"*"}
    ensures ColumnsHaveRight(w, "s", "t", cols, "enumerate", roles) == Allow
  {
    if cols != [] {
      SplitEnumerate(w, cols[0], roles);
      SplitColumnsEnumerate(w, cols[1..], roles);
    }
  }

  lemma SplitKeyEnumerates(w: Policy, unique: Res, roles: set<Role>)
    requires w == SplitPolicy() && unique == Key("s", "t", ["A"]) && "*" in roles && roles != {"*"}
    ensures HasRight(w, unique, "enumerate", roles) == Allow
  {
    SplitEnumerate(w, "A", roles);
    SplitColumns(w, Column("s", "t", "A"), Column("s", "t", "B"), roles);
  }

  /** The reference is enumerable until its second column stops the scan. */
  lemma SplitReference(w: Policy, cols: seq<string>, unique: Res, roles: set<Role>)
    requires w == SplitPolicy() && unique == Key("s", "t", ["A"]) && "*" in roles && roles != {"*"}
    ensures HasRight(w, FkeyRef("s", "t", cols, unique), "enumerate", roles)
      == if ColumnsHaveRight(w, "s", "t", cols, "select", roles) == Deny then Deny else Allow
  {
    SplitKeyEnumerates(w, unique, roles);
    SplitEnumerate(w, "A", roles);
    SplitColumnsEnumerate(w, cols, roles);
    assert "enumerate" !in AclsOf(w, FkeyRef("s", "t", cols, unique));
    InheritedEnumeration(w, "s", "t", cols, unique, roles);
  }

  /** ... and takes the enumeration of a whole reference with it. */
  lemma FkeyEnumerationCanDrop(few: set<Role>, more: set<Role>)
    requires few == {"*", "u"} && more == {"*", "u", "g"}
    ensures var r := FkeyRef("s", "t", ["A", "B"], Key("s", "t", ["A"]));
      HasRight(SplitPolicy(), r, "enumerate", few) == Allow && HasRight(SplitPolicy(), r, "enumerate", more) == Deny
  {
    CompositeFkeyDecisionCanDrop();
    assert "u" in few && "u" in more;
    SplitReference(SplitPolicy(), ["A", "B"], Key("s", "t", ["A"]), few);
    SplitReference(SplitPolicy(), ["A", "B"], Key("s", "t", ["A"]), more);
  }

  // -------------------------------------------------------------- ownership

  predicate Ancestor(a: Res, r: Res)
    decreases Level(r)
  {
    Parent(r).Some? && (Parent(r).value == a || Ancestor(a, Parent(r).value))
  }

  /** The catalog is above everything else, and a schema or table above what is
      in it. */
  lemma {:induction false} AncestorExactly(a: Res, r: Res)
    ensures Ancestor(a, r) <==>
      || (a.Catalog? && !r.Catalog?)
      || (a.Schema? && !r.Catalog? && !r.Schema? && a.schema == r.schema)
      || (a.Table? && (r.Column? || r.Key? || r.FkeyRef?) && a.schema == r.schema && a.table == r.table)
    decreases Level(r)
  {
    if Parent(r).Some? {
      AncestorExactly(a, Parent(r).value);
    }
  }

  predicate Container(r: Res) {
    r.Catalog? || r.Schema? || r.Table?
  }

  /** The rules written into the code that no ownership overrides. */
  predicate Blocked(w: Policy, r: Res, right: Right) {
    match r
    case Table(_, _) => TableBlocked(w, r, right)
    case Column(s, t, _) => ColumnBlocked(r, right) || TableBlocked(w, Table(s, t), right)
    case _ => false
  }

  /** An owner holds every right on the owned resource itself. */
  lemma OwnerHoldsAll(w: Policy, r: Res, right: Right, roles: set<Role>)
    requires Container(r) && right in ALL_RIGHTS && !Blocked(w, r, right)
    requires HasRight(w, r, "owner", roles) == Allow
    ensures HasRight(w, r, right, roles) == Allow
  {
  }

  /** Ownership passes to children, whatever ACLs they carry. */
  lemma {:induction false} OwnerOfParent(w: Policy, r: Res, right: Right, roles: set<Role>)
    requires (Container(r) || r.Column?) && Parent(r).Some? && right in ALL_RIGHTS
    requires HasRight(w, Parent(r).value, "owner", roles) == Allow
    ensures HasRight(w, r, right, roles) == if Blocked(w, r, right) then Deny else Allow
  {
    var up := Parent(r).value;
    assert roles != {"*"};
    if !Blocked(w, up, right) {
      OwnerHoldsAll(w, up, right, roles);
    }
    OwnerHoldsAll(w, up, "enumerate", roles);
  }

  /** Owning any ancestor gives every right on each schema, table and column
      below it, the hard-coded exceptions aside, whatever lies between. */
  lemma {:induction false} OwnerOfAncestor(w: Policy, anc: Res, r: Res, right: Right, roles: set<Role>)
    requires Ancestor(anc, r) && (Container(r) || r.Column?) && right in ALL_RIGHTS
    requires HasRight(w, anc, "owner", roles) == Allow
    ensures HasRight(w, r, right, roles) == if Blocked(w, r, right) then Deny else Allow
    decreases Level(r)
  {
    var up := Parent(r).value;
    if up != anc {
      OwnerOfAncestor(w, anc, up, "owner", roles);
    }
    if HasRight(w, up, "owner", roles) == Allow {
      OwnerOfParent(w, r, right, roles);
    } else {
      assert up.Table? && LostToHistory(w, up);
    }
  }
}
