/** Edits of stored ACLs and bindings as transitions of the policy, and what
    every run of them keeps. */
module AclEdits {
  import opened Wrappers
  import opened Rights

  datatype EditError = Forbidden | NotSupported | BadMembers

  /** `_acls_supported` of each resource class. */
  function Supported(r: Res): set<Right> {
    match r
    case Catalog => ALL_RIGHTS
    case Schema(_) => ALL_RIGHTS
    case Table(_, _) => ALL_RIGHTS - {"create"}
    case Column(_, _, _) => {"enumerate", "write", "insert", "update", "select"}
    case FkeyRef(_, _, _, _) => {"write", "insert", "update", "enumerate"}
    case Key(_, _, _) => {}
  }

  /** Only the catalog keeps its ACL entries; clearing one empties it. */
  predicate CanRemove(r: Res) {
    r != Catalog
  }

  function WithAcls(w: Policy, r: Res, acls: Acls): Policy {
    w.(acls := w.acls[r := acls])
  }

  function WithDynacls(w: Policy, r: Res, dynacls: Dynacls): Policy {
    w.(dynacls := w.dynacls[r := dynacls])
  }

  /** `enforce_right('owner')` passes. */
  predicate OwnerPasses(w: Policy, r: Res, roles: set<Role>) {
    HasRight(w, r, "owner", roles) != Deny
  }

  predicate WildcardRefused(name: Right, members: set<Role>, anonOk: bool) {
    name !in {"enumerate", "select"} && "*" in members && !anonOk
  }

  function StoreAcl(w: Policy, r: Res, name: Right, members: set<Role>, anonOk: bool,
      roles: set<Role>): Result<Policy, EditError> {
    var after := WithAcls(w, r, AclsOf(w, r)[name := Some(members)]);
    if !OwnerPasses(w, r, roles) then Err(Forbidden)
    else if name !in Supported(r) then Err(NotSupported)
    else if WildcardRefused(name, members, anonOk) then Err(BadMembers)
    else if !OwnerPasses(after, r, roles) then Err(Forbidden)
    else Ok(after)
  }

  function SetAcl(w: Policy, r: Res, name: Right, members: Option<set<Role>>, anonOk: bool,
      roles: set<Role>): Result<Policy, EditError> {
    match members
    case Some(ms) => StoreAcl(w, r, name, ms, anonOk, roles)
    case None => if CanRemove(r) then DeleteAcl(w, r, name, roles) else StoreAcl(w, r, name, {}, anonOk, roles)
  }

  function DeleteAcl(w: Policy, r: Res, name: Right, roles: set<Role>): Result<Policy, EditError> {
    var after := WithAcls(w, r, AclsOf(w, r) - {name});
    if !OwnerPasses(w, r, roles) then Err(Forbidden)
    else if name !in Supported(r) then Err(NotSupported)
    else if !CanRemove(r) then StoreAcl(w, r, name, {}, false, roles)
    else if !OwnerPasses(after, r, roles) then Err(Forbidden)
    else Ok(after)
  }

  /** Emptying the named ACLs one after the other. */
  function EmptyEach(w: Policy, r: Res, names: seq<Right>, roles: set<Role>): Result<Policy, EditError>
    decreases |names|
  {
    if names == [] then Ok(w)
    else
      match StoreAcl(w, r, names[0], {}, false, roles)
      case Err(e) => Err(e)
      case Ok(next) => EmptyEach(next, r, names[1..], roles)
  }

  /** `delete_acl(None)`; `order` is the order in which the supported names of
      a catalog are visited. */
  function DeleteAllAcls(w: Policy, r: Res, purging: bool, order: seq<Right>,
      roles: set<Role>): Result<Policy, EditError> {
    var after := WithAcls(w, r, map[]);
    if !OwnerPasses(w, r, roles) then Err(Forbidden)
    else if !CanRemove(r) then EmptyEach(w, r, order, roles)
    else if !purging && !OwnerPasses(after, r, roles) then Err(Forbidden)
    else Ok(after)
  }

  predicate WildcardInDoc(doc: Acls, anonOk: bool) {
    exists a | a in doc :: doc[a].Some? && WildcardRefused(a, doc[a].value, anonOk)
  }

  function SetAcls(w: Policy, r: Res, doc: Acls, anonOk: bool, order: seq<Right>,
      roles: set<Role>): Result<Policy, EditError> {
    if !(doc.Keys <= Supported(r)) then Err(NotSupported)
    else
      match DeleteAllAcls(w, r, true, order, roles)
      case Err(e) => Err(e)
      case Ok(cleared) =>
        var after := WithAcls(cleared, r, AclsOf(cleared, r) + doc);
        if !OwnerPasses(after, r, roles) then Err(Forbidden)
        else if WildcardInDoc(AclsOf(after, r), anonOk) then Err(BadMembers)
        else Ok(after)
  }

  // ------------------------------------------------------ whole-set requests

  /** Deleting the named ACLs one after the other. */
  function DropEach(w: Policy, r: Res, names: seq<Right>, roles: set<Role>): Result<Policy, EditError>
    decreases |names|
  {
    if names == [] then Ok(w)
    else
      match DropEach(w, r, names[..|names| - 1], roles)
      case Err(e) => Err(e)
      case Ok(v) => DeleteAcl(v, r, names[|names| - 1], roles)
  }

  /** Storing the named entries of a document one after the other; None is an
      entry that is not a list of strings. */
  function PutEach(w: Policy, r: Res, doc: Acls, names: seq<Right>, anonOk: bool,
      roles: set<Role>): Result<Policy, EditError>
    decreases |names|
  {
    if names == [] then Ok(w)
    else
      var n := names[|names| - 1];
      match PutEach(w, r, doc, names[..|names| - 1], anonOk, roles)
      case Err(e) => Err(e)
      case Ok(v) => if n !in doc || doc[n].None? then Err(BadMembers) else SetAcl(v, r, n, doc[n], anonOk, roles)
  }

  /** The stored names that a document does not have. */
  function Missing(stored: seq<Right>, doc: Acls): (names: seq<Right>)
    ensures forall n :: n in names <==> n in stored && n !in doc
  {
    if stored == [] then []
    else Missing(stored[..|stored| - 1], doc) + if stored[|stored| - 1] in doc then [] else [stored[|stored| - 1]]
  }

  /** PUT of a whole ACL document: stored names that it does not have are
      deleted one by one, then its entries are stored one by one. `stored` and
      `names` are the orders of the two dictionaries. */
  function PutDocument(w: Policy, r: Res, doc: Acls, stored: seq<Right>, names: seq<Right>, anonOk: bool,
      roles: set<Role>): Result<Policy, EditError>
  {
    if !OwnerPasses(w, r, roles) then Err(Forbidden)
    else
      match DropEach(w, r, Missing(stored, doc), roles)
      case Err(e) => Err(e)
      case Ok(v) => PutEach(v, r, doc, names, anonOk, roles)
  }

  /** The first error is the outcome. */
  lemma {:induction false} DropEachStops(w: Policy, r: Res, names: seq<Right>, roles: set<Role>, i: nat)
    requires i <= |names| && DropEach(w, r, names[..i], roles).Err?
    ensures DropEach(w, r, names, roles) == DropEach(w, r, names[..i], roles)
    decreases |names|
  {
    if i < |names| {
      var front := names[..|names| - 1];
      assert front[..i] == names[..i];
      DropEachStops(w, r, front, roles, i);
    } else {
      assert names[..i] == names;
    }
  }

  lemma {:induction false} PutEachStops(w: Policy, r: Res, doc: Acls, names: seq<Right>, anonOk: bool,
      roles: set<Role>, i: nat)
    requires i <= |names| && PutEach(w, r, doc, names[..i], anonOk, roles).Err?
    ensures PutEach(w, r, doc, names, anonOk, roles) == PutEach(w, r, doc, names[..i], anonOk, roles)
    decreases |names|
  {
    if i < |names| {
      var front := names[..|names| - 1];
      assert front[..i] == names[..i];
      PutEachStops(w, r, doc, front, anonOk, roles, i);
    } else {
      assert names[..i] == names;
    }
  }

  /** Binding edits check ownership beforehand only. */
  function SetDynacls(w: Policy, r: Res, dynacls: Dynacls, roles: set<Role>): Result<Policy, EditError> {
    if !OwnerPasses(w, r, roles) then Err(Forbidden) else Ok(WithDynacls(w, r, dynacls))
  }

  datatype Edit =
    | PutAcl(r: Res, name: Right, members: Option<set<Role>>, anonOk: bool)
    | DropAcl(r: Res, name: Right)
    | DropAcls(r: Res, order: seq<Right>)
    | PutAcls(r: Res, doc: Acls, anonOk: bool, order: seq<Right>)
    | PutDoc(r: Res, doc: Acls, stored: seq<Right>, names: seq<Right>, anonOk: bool)
    | PutDynacls(r: Res, dynacls: Dynacls)

  function Apply(w: Policy, e: Edit, roles: set<Role>): Result<Policy, EditError> {
    match e
    case PutAcl(r, name, members, anonOk) => SetAcl(w, r, name, members, anonOk, roles)
    case DropAcl(r, name) => DeleteAcl(w, r, name, roles)
    case DropAcls(r, order) => DeleteAllAcls(w, r, false, order, roles)
    case PutAcls(r, doc, anonOk, order) => SetAcls(w, r, doc, anonOk, order, roles)
    case PutDoc(r, doc, stored, names, anonOk) => PutDocument(w, r, doc, stored, names, anonOk, roles)
    case PutDynacls(r, dynacls) => SetDynacls(w, r, dynacls, roles)
  }

  function Run(w: Policy, edits: seq<Edit>, roles: set<Role>): Result<Policy, EditError> {
    if edits == [] then Ok(w)
    else
      match Run(w, edits[..|edits| - 1], roles)
      case Err(e) => Err(e)
      case Ok(v) => Apply(v, edits[|edits| - 1], roles)
  }

  // ------------------------------------------------------------- ownership

  predicate Static(r: Res) {
    r.Catalog? || r.Schema?
  }

  /** Without dynamic bindings a decision is never undecided. */
  lemma StaticDecided(w: Policy, r: Res, right: Right, roles: set<Role>)
    requires Static(r)
    ensures HasRight(w, r, right, roles) != Maybe
  {
    assert HasRight(w, Catalog, right, roles) != Maybe;
  }

  /** Decisions on a catalog or schema read only its own and the catalog's ACLs. */
  lemma StaticDependsOn(v: Policy, w: Policy, r: Res, right: Right, roles: set<Role>)
    requires Static(r) && AclsOf(v, r) == AclsOf(w, r) && AclsOf(v, Catalog) == AclsOf(w, Catalog)
    ensures HasRight(v, r, right, roles) == HasRight(w, r, right, roles)
  {
    assert HasRight(v, Catalog, right, roles) == HasRight(w, Catalog, right, roles);
    assert HasRight(v, Catalog, "owner", roles) == HasRight(w, Catalog, "owner", roles);
  }

  /** A catalog that empties all of its ACLs fails at its own 'owner' entry. */
  lemma {:induction false} EmptyEachFails(w: Policy, names: seq<Right>, roles: set<Role>)
    requires "owner" in names
    requires forall n | n in names :: n in Supported(Catalog)
    ensures EmptyEach(w, Catalog, names, roles) == Err(Forbidden)
    decreases |names|
  {
    if names[0] == "owner" {
      var after := WithAcls(w, Catalog, AclsOf(w, Catalog)["owner" := Some({})]);
      assert !Grants(AclsOf(after, Catalog), "owner", roles);
    } else {
      var next := WithAcls(w, Catalog, AclsOf(w, Catalog)[names[0] := Some({})]);
      if OwnerPasses(w, Catalog, roles) && OwnerPasses(next, Catalog, roles) {
        EmptyEachFails(next, names[1..], roles);
      }
    }
  }

  /** So DELETE of the whole ACL set of a catalog is always refused. */
  lemma CatalogAclsNeverCleared(w: Policy, order: seq<Right>, roles: set<Role>)
    requires forall n :: n in order <==> n in Supported(Catalog)
    ensures DeleteAllAcls(w, Catalog, false, order, roles) == Err(Forbidden)
  {
    EmptyEachFails(w, order, roles);
  }

  // ---------------------------------------------- the ACL document of a catalog

  /** Only the catalog's own 'owner' entry makes an owner of it. */
  lemma CatalogOwner(w: Policy, roles: set<Role>)
    ensures OwnerPasses(w, Catalog, roles) <==>
      && roles != {"*"}
      && var acls := AclsOf(w, Catalog);
         "owner" in acls && acls["owner"].Some? && acls["owner"].value * roles != {}
  {
  }

  /** Storing one entry, for an owner. */
  lemma StoreExactly(w: Policy, n: Right, members: set<Role>, anonOk: bool, roles: set<Role>)
    requires OwnerPasses(w, Catalog, roles)
    ensures StoreAcl(w, Catalog, n, members, anonOk, roles).Ok? <==>
      n in Supported(Catalog) && !WildcardRefused(n, members, anonOk) && (n == "owner" ==> members * roles != {})
  {
    CatalogOwner(w, roles);
    CatalogOwner(WithAcls(w, Catalog, AclsOf(w, Catalog)[n := Some(members)]), roles);
  }

  lemma WithAclsTwice(w: Policy, r: Res, acls: Acls, more: Acls)
    ensures WithAcls(WithAcls(w, r, acls), r, more) == WithAcls(w, r, more)
  {
    assert WithAcls(WithAcls(w, r, acls), r, more).acls == WithAcls(w, r, more).acls;
  }

  /** The stored ACLs with the named ones emptied. */
  function Emptied(acls: Acls, names: seq<Right>): Acls {
    acls + map n | n in names :: Some({})
  }

  function Restricted(doc: Acls, names: seq<Right>): Acls {
    map n | n in names && n in doc :: doc[n]
  }

  lemma OneMoreEmptied(acls: Acls, front: seq<Right>, last: Right)
    ensures Emptied(acls, front)[last := Some({})] == Emptied(acls, front + [last])
  {
  }

  lemma OneMoreStored(acls: Acls, doc: Acls, front: seq<Right>, last: Right)
    requires last in doc
    ensures (acls + Restricted(doc, front))[last := doc[last]] == acls + Restricted(doc, front + [last])
  {
  }

  lemma NothingStored(w: Policy, doc: Acls, roles: set<Role>)
    requires OwnerPasses(w, Catalog, roles)
    ensures WithAcls(w, Catalog, Emptied(AclsOf(w, Catalog), [])) == w
    ensures WithAcls(w, Catalog, AclsOf(w, Catalog) + Restricted(doc, [])) == w
  {
    CatalogOwner(w, roles);
    assert Emptied(AclsOf(w, Catalog), []) == AclsOf(w, Catalog) && AclsOf(w, Catalog) + Restricted(doc, [])
      == AclsOf(w, Catalog);
    assert WithAcls(w, Catalog, AclsOf(w, Catalog)).acls == w.acls;
  }

  lemma {:induction false} DropEachExactly(w: Policy, names: seq<Right>, roles: set<Role>)
    requires OwnerPasses(w, Catalog, roles)
    ensures DropEach(w, Catalog, names, roles).Ok? <==> forall n | n in names :: n in Supported(Catalog) && n != "owner"
    ensures DropEach(w, Catalog, names, roles).Ok? ==>
      DropEach(w, Catalog, names, roles).value == WithAcls(w, Catalog, Emptied(AclsOf(w, Catalog), names))
    decreases |names|
  {
    if names == [] {
      NothingStored(w, map[], roles);
    } else {
      var front, last := names[..|names| - 1], names[|names| - 1];
      DropEachExactly(w, front, roles);
      assert names == front + [last] && forall n :: n in names <==> n in front || n == last;
      if DropEach(w, Catalog, front, roles).Ok? {
        DropEachOwner(w, Catalog, front, roles);
        StoreExactly(DropEach(w, Catalog, front, roles).value, last, {}, false, roles);
        OneMoreEmptied(AclsOf(w, Catalog), front, last);
        WithAclsTwice(w, Catalog, Emptied(AclsOf(w, Catalog), front), Emptied(AclsOf(w, Catalog), names));
      }
    }
  }

  /** An entry of a document that storing accepts; the owner's must keep the
      client an owner. */
  predicate Acceptable(doc: Acls, n: Right, anonOk: bool, roles: set<Role>) {
    && n in doc && doc[n].Some? && n in Supported(Catalog)
    && !WildcardRefused(n, doc[n].value, anonOk)
    && (n == "owner" ==> doc[n].value * roles != {})
  }

  lemma {:induction false} PutEachExactly(w: Policy, doc: Acls, names: seq<Right>, anonOk: bool, roles: set<Role>)
    requires OwnerPasses(w, Catalog, roles)
    ensures PutEach(w, Catalog, doc, names, anonOk, roles).Ok? <==> forall n | n in names ::
      Acceptable(doc, n, anonOk, roles)
    ensures PutEach(w, Catalog, doc, names, anonOk, roles).Ok? ==>
      PutEach(w, Catalog, doc, names, anonOk, roles).value
        == WithAcls(w, Catalog, AclsOf(w, Catalog) + Restricted(doc, names))
    decreases |names|
  {
    if names == [] {
      NothingStored(w, doc, roles);
    } else {
      var front, last := names[..|names| - 1], names[|names| - 1];
      PutEachExactly(w, doc, front, anonOk, roles);
      assert names == front + [last] && forall n :: n in names <==> n in front || n == last;
      var before, after := AclsOf(w, Catalog) + Restricted(doc, front), AclsOf(w, Catalog) + Restricted(doc, names);
      if PutEach(w, Catalog, doc, front, anonOk, roles).Ok? {
        if last in doc && doc[last].Some? {
          PutEachOwner(w, Catalog, doc, front, anonOk, roles);
          StoreExactly(WithAcls(w, Catalog, before), last, doc[last].value, anonOk, roles);
          OneMoreStored(AclsOf(w, Catalog), doc, front, last);
          WithAclsTwice(w, Catalog, before, after);
        }
        assert PutEach(w, Catalog, doc, names, anonOk, roles).Ok? <==> Acceptable(doc, last, anonOk, roles);
      }
    }
  }

  /** When PUT of a whole ACL document on a catalog succeeds, and what it
      leaves: the document, and emptied entries for the names it lacks. */
  lemma CatalogDocumentExactly(w: Policy, doc: Acls, stored: seq<Right>, names: seq<Right>, anonOk: bool,
      roles: set<Role>)
    requires (forall n :: n in stored <==> n in AclsOf(w, Catalog)) && (forall n :: n in names <==> n in doc)
    ensures PutDocument(w, Catalog, doc, stored, names, anonOk, roles).Ok? <==>
      && OwnerPasses(w, Catalog, roles)
      && AclsOf(w, Catalog).Keys - doc.Keys <= Supported(Catalog)
      && "owner" in doc
      && forall n | n in doc :: Acceptable(doc, n, anonOk, roles)
    ensures PutDocument(w, Catalog, doc, stored, names, anonOk, roles).Ok? ==>
      var v := PutDocument(w, Catalog, doc, stored, names, anonOk, roles).value;
      && v == WithAcls(w, Catalog, (map n | n in AclsOf(w, Catalog) && n !in doc :: Some({})) + doc)
      && HasRight(v, Catalog, "owner", roles) == Allow
  {
    if OwnerPasses(w, Catalog, roles) {
      var missing := Missing(stored, doc);
      CatalogOwner(w, roles);
      DropEachExactly(w, missing, roles);
      if DropEach(w, Catalog, missing, roles).Ok? {
        var u := DropEach(w, Catalog, missing, roles).value;
        DropEachOwner(w, Catalog, missing, roles);
        PutEachExactly(u, doc, names, anonOk, roles);
        if PutEach(u, Catalog, doc, names, anonOk, roles).Ok? {
          PutEachOwner(u, Catalog, doc, names, anonOk, roles);
          DocumentStored(w, u, doc, missing, names);
          StaticDecided(PutEach(u, Catalog, doc, names, anonOk, roles).value, Catalog, "owner", roles);
        }
      }
    }
  }

  lemma DocumentStored(w: Policy, u: Policy, doc: Acls, missing: seq<Right>, names: seq<Right>)
    requires u == WithAcls(w, Catalog, Emptied(AclsOf(w, Catalog), missing))
    requires (forall n :: n in missing <==> n in AclsOf(w, Catalog) && n !in doc)
    requires (forall n :: n in names <==> n in doc)
    ensures WithAcls(u, Catalog, AclsOf(u, Catalog) + Restricted(doc, names))
      == WithAcls(w, Catalog, (map n | n in AclsOf(w, Catalog) && n !in doc :: Some({})) + doc)
  {
    var after := (map n | n in AclsOf(w, Catalog) && n !in doc :: Some({})) + doc;
    assert AclsOf(u, Catalog) + Restricted(doc, names) == after;
    assert WithAcls(u, Catalog, after).acls == WithAcls(w, Catalog, after).acls;
  }

  lemma {:induction false} EmptyEachOwner(w: Policy, r: Res, names: seq<Right>, roles: set<Role>)
    requires EmptyEach(w, r, names, roles).Ok? && OwnerPasses(w, r, roles)
    ensures OwnerPasses(EmptyEach(w, r, names, roles).value, r, roles)
    ensures forall q | q != r :: AclsOf(EmptyEach(w, r, names, roles).value, q) == AclsOf(w, q)
    decreases |names|
  {
    if names != [] {
      EmptyEachOwner(StoreAcl(w, r, names[0], {}, false, roles).value, r, names[1..], roles);
    }
  }

  lemma {:induction false} DropEachOwner(w: Policy, r: Res, names: seq<Right>, roles: set<Role>)
    requires DropEach(w, r, names, roles).Ok? && OwnerPasses(w, r, roles)
    ensures OwnerPasses(DropEach(w, r, names, roles).value, r, roles)
    ensures forall q | q != r :: AclsOf(DropEach(w, r, names, roles).value, q) == AclsOf(w, q)
    decreases |names|
  {
    if names != [] {
      DropEachOwner(w, r, names[..|names| - 1], roles);
    }
  }

  lemma {:induction false} PutEachOwner(w: Policy, r: Res, doc: Acls, names: seq<Right>, anonOk: bool, roles: set<Role>)
    requires PutEach(w, r, doc, names, anonOk, roles).Ok? && OwnerPasses(w, r, roles)
    ensures OwnerPasses(PutEach(w, r, doc, names, anonOk, roles).value, r, roles)
    ensures forall q | q != r :: AclsOf(PutEach(w, r, doc, names, anonOk, roles).value, q) == AclsOf(w, q)
    decreases |names|
  {
    if names != [] {
      PutEachOwner(w, r, doc, names[..|names| - 1], anonOk, roles);
    }
  }

  lemma DocumentKeepsOwner(w: Policy, e: Edit, roles: set<Role>)
    requires e.PutDoc? && Apply(w, e, roles).Ok?
    ensures OwnerPasses(Apply(w, e, roles).value, e.r, roles)
    ensures forall q | q != e.r :: AclsOf(Apply(w, e, roles).value, q) == AclsOf(w, q)
  {
    var names := Missing(e.stored, e.doc);
    DropEachOwner(w, e.r, names, roles);
    PutEachOwner(DropEach(w, e.r, names, roles).value, e.r, e.doc, e.names, e.anonOk, roles);
  }

  lemma EditTouchesOne(w: Policy, e: Edit, roles: set<Role>)
    requires Apply(w, e, roles).Ok?
    ensures forall q | q != e.r :: AclsOf(Apply(w, e, roles).value, q) == AclsOf(w, q)
  {
    if (e.DropAcls? || e.PutAcls?) && !CanRemove(e.r) {
      EmptyEachOwner(w, e.r, e.order, roles);
    }
    if e.PutDoc? {
      DocumentKeepsOwner(w, e, roles);
    }
  }

  lemma EditLeavesOwner(w: Policy, e: Edit, roles: set<Role>)
    requires Apply(w, e, roles).Ok? && Static(e.r)
    ensures OwnerPasses(Apply(w, e, roles).value, e.r, roles)
  {
    if (e.DropAcls? || e.PutAcls?) && !CanRemove(e.r) {
      EmptyEachOwner(w, e.r, e.order, roles);
    }
    if e.PutDoc? {
      DocumentKeepsOwner(w, e, roles);
    }
    if e.PutDynacls? {
      StaticDependsOn(Apply(w, e, roles).value, w, e.r, "owner", roles);
    }
  }

  /** A successful edit leaves the editor owning the edited catalog or schema,
      and touches no other resource's ACLs. */
  lemma EditKeepsOwner(w: Policy, e: Edit, roles: set<Role>)
    requires Apply(w, e, roles).Ok?
    ensures forall q | q != e.r :: AclsOf(Apply(w, e, roles).value, q) == AclsOf(w, q)
    ensures Static(e.r) ==> HasRight(Apply(w, e, roles).value, e.r, "owner", roles) == Allow
  {
    EditTouchesOne(w, e, roles);
    if Static(e.r) {
      EditLeavesOwner(w, e, roles);
      StaticDecided(Apply(w, e, roles).value, e.r, "owner", roles);
    }
  }

  // ------------------------------------------------------- what is stored

  /** ACLs under supported names, of which only those for enumerating and reading
      may be open to everyone. */
  predicate Orderly(r: Res, acls: Acls) {
    && acls.Keys <= Supported(r)
    && forall a | a in acls && acls[a].Some? && a != "enumerate" && a != "select" :: "*" !in acls[a].value
  }

  /** The edit is made where anonymous changes are not permitted. */
  predicate Guarded(e: Edit) {
    (e.PutAcl? || e.PutAcls? || e.PutDoc?) ==> !e.anonOk
  }

  lemma StoreOrderly(w: Policy, r: Res, name: Right, members: set<Role>, roles: set<Role>)
    requires Orderly(r, AclsOf(w, r)) && StoreAcl(w, r, name, members, false, roles).Ok?
    ensures Orderly(r, AclsOf(StoreAcl(w, r, name, members, false, roles).value, r))
  {
  }

  lemma DeleteOrderly(w: Policy, r: Res, name: Right, roles: set<Role>)
    requires Orderly(r, AclsOf(w, r)) && DeleteAcl(w, r, name, roles).Ok?
    ensures Orderly(r, AclsOf(DeleteAcl(w, r, name, roles).value, r))
  {
    if !CanRemove(r) {
      StoreOrderly(w, r, name, {}, roles);
    }
  }

  lemma {:induction false} EmptyEachOrderly(w: Policy, r: Res, names: seq<Right>, roles: set<Role>)
    requires Orderly(r, AclsOf(w, r)) && EmptyEach(w, r, names, roles).Ok?
    ensures Orderly(r, AclsOf(EmptyEach(w, r, names, roles).value, r))
    decreases |names|
  {
    if names != [] {
      StoreOrderly(w, r, names[0], {}, roles);
      EmptyEachOrderly(StoreAcl(w, r, names[0], {}, false, roles).value, r, names[1..], roles);
    }
  }

  lemma {:induction false} DropEachOrderly(w: Policy, r: Res, names: seq<Right>, roles: set<Role>)
    requires Orderly(r, AclsOf(w, r)) && DropEach(w, r, names, roles).Ok?
    ensures Orderly(r, AclsOf(DropEach(w, r, names, roles).value, r))
    decreases |names|
  {
    if names != [] {
      var front := names[..|names| - 1];
      DropEachOrderly(w, r, front, roles);
      DeleteOrderly(DropEach(w, r, front, roles).value, r, names[|names| - 1], roles);
    }
  }

  lemma {:induction false} PutEachOrderly(w: Policy, r: Res, doc: Acls, names: seq<Right>, roles: set<Role>)
    requires Orderly(r, AclsOf(w, r)) && PutEach(w, r, doc, names, false, roles).Ok?
    ensures Orderly(r, AclsOf(PutEach(w, r, doc, names, false, roles).value, r))
    decreases |names|
  {
    if names != [] {
      var front, last := names[..|names| - 1], names[|names| - 1];
      PutEachOrderly(w, r, doc, front, roles);
      StoreOrderly(PutEach(w, r, doc, front, false, roles).value, r, last, doc[last].value, roles);
    }
  }

  lemma SetAclsOrderly(w: Policy, r: Res, doc: Acls, order: seq<Right>, roles: set<Role>)
    requires Orderly(r, AclsOf(w, r)) && SetAcls(w, r, doc, false, order, roles).Ok?
    ensures Orderly(r, AclsOf(SetAcls(w, r, doc, false, order, roles).value, r))
  {
    if !CanRemove(r) {
      EmptyEachOrderly(w, r, order, roles);
    }
  }

  /** A successful edit, where anonymous changes are not permitted, never stores
      an unsupported name, nor opens a changing right to everyone. */
  lemma EditKeepsOrder(w: Policy, e: Edit, roles: set<Role>)
    requires Orderly(e.r, AclsOf(w, e.r)) && Guarded(e) && Apply(w, e, roles).Ok?
    ensures Orderly(e.r, AclsOf(Apply(w, e, roles).value, e.r))
  {
    match e
    case PutAcl(r, name, members, _) =>
      if members.Some? {
        StoreOrderly(w, r, name, members.value, roles);
      } else if CanRemove(r) {
        DeleteOrderly(w, r, name, roles);
      } else {
        StoreOrderly(w, r, name, {}, roles);
      }
    case DropAcl(r, name) =>
      DeleteOrderly(w, r, name, roles);
    case DropAcls(r, order) =>
      if !CanRemove(r) {
        EmptyEachOrderly(w, r, order, roles);
      }
    case PutAcls(r, doc, _, order) =>
      SetAclsOrderly(w, r, doc, order, roles);
    case PutDoc(r, doc, stored, names, _) =>
      var missing := Missing(stored, doc);
      DropEachOrderly(w, r, missing, roles);
      PutEachOrderly(DropEach(w, r, missing, roles).value, r, doc, names, roles);
    case PutDynacls(_, _) =>
  }

  ghost predicate OrderlyPolicy(w: Policy) {
    forall r :: Orderly(r, AclsOf(w, r))
  }

  /** ... over any run of such edits. */
  lemma {:induction false} RunKeepsOrder(w: Policy, edits: seq<Edit>, roles: set<Role>)
    requires OrderlyPolicy(w) && (forall e | e in edits :: Guarded(e)) && Run(w, edits, roles).Ok?
    ensures OrderlyPolicy(Run(w, edits, roles).value)
    decreases |edits|
  {
    if edits != [] {
      var front, e := edits[..|edits| - 1], edits[|edits| - 1];
      RunKeepsOrder(w, front, roles);
      EditKeepsOrder(Run(w, front, roles).value, e, roles);
      EditTouchesOne(Run(w, front, roles).value, e, roles);
    }
  }

  /** The names that a resource supports are rights; ownership is held of
      containers alone, and things are created in catalogs and schemas. */
  lemma SupportedNames(r: Res)
    ensures Supported(r) <= ALL_RIGHTS
    ensures "owner" in Supported(r) <==> Container(r)
    ensures "create" in Supported(r) <==> r.Catalog? || r.Schema?
  {
  }

  /** Over any run of successful edits by one client, every catalog or schema
      it has edited stays owned. */
  lemma {:induction false} RunKeepsOwner(w: Policy, edits: seq<Edit>, roles: set<Role>, i: nat)
    requires Run(w, edits, roles).Ok? && i < |edits| && Static(edits[i].r)
    ensures HasRight(Run(w, edits, roles).value, edits[i].r, "owner", roles) == Allow
    decreases |edits|
  {
    var front, e, r := edits[..|edits| - 1], edits[|edits| - 1], edits[i].r;
    var u := Run(w, front, roles).value;
    var v := Apply(u, e, roles).value;
    EditKeepsOwner(u, e, roles);
    if i < |edits| - 1 && e.r != r {
      RunKeepsOwner(w, front, roles, i);
      if e.r == Catalog {
        OwnerOfAncestor(v, Catalog, r, "owner", roles);
      } else {
        StaticDependsOn(v, u, r, "owner", roles);
      }
    }
  }

  /** ... and with it every right on the tables and columns below. */
  lemma RunKeepsSubtree(w: Policy, edits: seq<Edit>, roles: set<Role>, i: nat, r: Res, right: Right)
    requires Run(w, edits, roles).Ok? && i < |edits| && Static(edits[i].r)
    requires Ancestor(edits[i].r, r) && (Container(r) || r.Column?) && right in ALL_RIGHTS
    ensures var v := Run(w, edits, roles).value;
      HasRight(v, r, right, roles) == if Blocked(v, r, right) then Deny else Allow
  {
    RunKeepsOwner(w, edits, roles, i);
    OwnerOfAncestor(Run(w, edits, roles).value, edits[i].r, r, right, roles);
  }
}
