/** The in-memory ACL state of a catalog model: dictionaries with digests, the
    memo cache of decisions they invalidate, and the edit operations. */
module AclModel {
  import opened Wrappers
  import opened Rights
  import opened AclEdits

  /** Members that hold a right under the given ACLs. */
  ghost function Members(acls: Acls, right: Right): set<Role> {
    set a, x | a in acls && acls[a].Some? && (a == right || a in Sufficient(right)) && x in acls[a].value :: x
  }

  lemma GrantsByMembers(acls: Acls, right: Right, roles: set<Role>)
    ensures Grants(acls, right, roles) <==> Members(acls, right) * roles != {}
  {
  }

  /** The decorated layers: a resource class's own `has_right`, and the shared
      rule beneath it. */
  datatype Layer = Own | Shared

  datatype CacheKey = CacheKey(r: Res, layer: Layer, right: Right, roles: Option<set<Role>>, anonOk: bool)

  class RightsCache {
    var entries: map<CacheKey, Decision>

    constructor ()
      ensures entries == map[]
    {
      entries := map[];
    }
  }

  function Digested(digest: map<Right, set<Role>>, right: Right): set<Role> {
    if right in digest then digest[right] else {}
  }

  /** The rights an ACL name suffices for. */
  function SufficesFor(name: Right): (rights: set<Right>)
    ensures forall right :: right in rights <==> name in Sufficient(right)
  {
    set right | right in ALL_RIGHTS && name in Sufficient(right)
  }

  /** What one ACL contributes to the holders of a right. */
  function Share(name: Right, members: set<Role>, right: Right): set<Role> {
    if right == name || right in SufficesFor(name) then members else {}
  }

  function Credit(digest: map<Right, set<Role>>, right: Right, members: set<Role>): (d: map<Right, set<Role>>)
    ensures forall q :: Digested(d, q) == if q == right then Digested(digest, q) + members else Digested(digest, q)
  {
    digest[right := Digested(digest, right) + members]
  }

  ghost predicate CreditedFor(before: map<Right, set<Role>>, after: map<Right, set<Role>>, rights: set<Right>,
      members: set<Role>) {
    forall q :: Digested(after, q) == if q in rights then Digested(before, q) + members else Digested(before, q)
  }

  lemma CreditMore(before: map<Right, set<Role>>, after: map<Right, set<Role>>, rights: set<Right>, right: Right,
      members: set<Role>)
    requires CreditedFor(before, after, rights, members)
    ensures CreditedFor(before, Credit(after, right, members), rights + {right}, members)
  {
  }

  ghost predicate Reflects(digest: map<Right, set<Role>>, acls: Acls) {
    forall right :: Digested(digest, right) == Members(acls, right)
  }

  lemma ReflectsAdd(before: map<Right, set<Role>>, after: map<Right, set<Role>>, acls: Acls, name: Right,
      members: Option<set<Role>>)
    requires Reflects(before, acls) && name !in acls
    requires if members.Some? then CreditedFor(before, after, {name} + SufficesFor(name), members.value)
      else after == before
    ensures Reflects(after, acls[name := members])
  {
    forall right ensures Digested(after, right) == Members(acls[name := members], right) {
      MembersAdd(acls, name, members, right);
    }
  }

  lemma DigestStep(before: map<Right, set<Role>>, digest: map<Right, set<Role>>, helped: set<Right>, todo: set<Right>,
      name: Right, right: Right, members: set<Role>)
    requires right in todo && CreditedFor(before, digest, {name} + (helped - todo), members)
    ensures CreditedFor(before, if right in helped then Credit(digest, right, members)
      else digest, {name} + (helped - (todo - {right})), members)
  {
  }

  lemma NothingHelpedYet(name: Right, helped: set<Right>)
    requires helped <= ALL_RIGHTS
    ensures {} + {name} == {name} + (helped - ALL_RIGHTS)
  {
  }

  class AclDict {
    const subject: Res
    var items: Acls
    var digest: map<Right, set<Role>>

    ghost predicate Valid()
      reads this
    {
      Reflects(digest, items)
    }

    constructor (subject: Res)
      ensures this.subject == subject && Valid()
      ensures items == if CanRemove(subject) then map[] else map a | a in Supported(subject) :: Some({})
    {
      this.subject := subject;
      items := if CanRemove(subject) then map[] else map a | a in Supported(subject) :: Some({});
      digest := map[];
    }

    method Digest(cache: RightsCache)
      modifies this`digest, cache
      ensures Valid() && cache.entries == map[]
    {
      cache.entries := map[];
      digest := map[];
      var source := items;
      var todo := source.Keys;
      while todo != {}
        invariant todo <= source.Keys
        invariant Reflects(digest, source - todo)
        modifies this`digest
        decreases todo
      {
        var name :| name in todo;
        ghost var before, done := digest, source - todo;
        if source[name].Some? {
          DigestOne(name, source[name].value);
        }
        ReflectsAdd(before, digest, done, name, source[name]);
        todo := todo - {name};
        assert source - todo == done[name := source[name]];
      }
      assert source - todo == source;
    }

    /** Adds one ACL's members to its own right and to those it suffices for. */
    method DigestOne(name: Right, members: set<Role>)
      modifies this`digest
      ensures CreditedFor(old(digest), digest, {name} + SufficesFor(name), members)
    {
      ghost var before := digest;
      CreditMore(before, digest, {}, name, members);
      digest := Credit(digest, name, members);
      var helped := SufficesFor(name);
      var todo := ALL_RIGHTS;
      NothingHelpedYet(name, helped);
      while todo != {}
        invariant CreditedFor(before, digest, {name} + (helped - todo), members)
        decreases todo
      {
        var right :| right in todo;
        DigestStep(before, digest, helped, todo, name, right, members);
        if right in helped {
          digest := Credit(digest, right, members);
        }
        todo := todo - {right};
      }
      assert {name} + (helped - todo) == {name} + helped;
    }

    method SetItem(name: Right, members: Option<set<Role>>, cache: RightsCache)
      modifies this, cache
      ensures Valid() && cache.entries == map[]
      ensures items == old(items)[name := members]
    {
      items := items[name := members];
      Digest(cache);
    }

    method DelItem(name: Right, cache: RightsCache)
      modifies this, cache
      ensures Valid() && cache.entries == map[]
      ensures items == if CanRemove(subject) then old(items) - {name} else old(items)[name := Some({})]
    {
      items := if CanRemove(subject) then items - {name} else items[name := Some({})];
      Digest(cache);
    }

    method Update(doc: Acls, cache: RightsCache)
      modifies this, cache
      ensures Valid() && cache.entries == map[]
      ensures items == old(items) + doc
    {
      items := items + doc;
      Digest(cache);
    }

    method Clear(cache: RightsCache)
      modifies this, cache
      ensures Valid() && cache.entries == map[]
      ensures items == if CanRemove(subject) then map[]
                       else old(items) + map a | a in Supported(subject) :: Some({})
    {
      if CanRemove(subject) {
        items := map[];
      } else {
        items := items + map a | a in Supported(subject) :: Some({});
      }
      Digest(cache);
    }

    /** `intersects`, answered from the digest. */
    method Intersects(right: Right, roles: set<Role>) returns (b: bool)
      requires Valid()
      ensures b == Grants(items, right, roles)
    {
      GrantsByMembers(items, right, roles);
      b := (if right in digest then digest[right] else {}) * roles != {};
    }
  }

  lemma MembersAdd(acls: Acls, name: Right, members: Option<set<Role>>, right: Right)
    requires name !in acls
    ensures Members(acls[name := members], right) == Members(acls, right) +
      (if members.Some? then Share(name, members.value, right) else {})
  {
    var more := acls[name := members];
    var extra := if members.Some? then Share(name, members.value, right) else {};
    forall x ensures x in Members(more, right) <==> x in Members(acls, right) + extra {
      if x in Members(acls, right) {
        var a :| a in acls && acls[a].Some? && (a == right || a in Sufficient(right)) && x in acls[a].value;
        assert more[a] == acls[a];
      }
      if x in extra {
        assert more[name] == members;
      }
    }
  }

  class DynaclDict {
    var items: Dynacls

    constructor ()
      ensures items == map[]
    {
      items := map[];
    }

    method SetItem(name: string, binding: Option<Binding>, cache: RightsCache)
      modifies this, cache
      ensures items == old(items)[name := binding] && cache.entries == map[]
    {
      items := items[name := binding];
      cache.entries := map[];
    }

    method DelItem(name: string, cache: RightsCache)
      modifies this, cache
      ensures items == old(items) - {name} && cache.entries == map[]
    {
      items := items - {name};
      cache.entries := map[];
    }

    method Replace(doc: Dynacls, cache: RightsCache)
      modifies this, cache
      ensures items == doc && cache.entries == map[]
    {
      items := map[];
      cache.entries := map[];
      items := items + doc;
      cache.entries := map[];
    }
  }

  /** The ACL-bearing resources of one catalog for one request. */
  class Catalogue {
    const acls: map<Res, AclDict>
    const dynacls: map<Res, DynaclDict>
    const cache: RightsCache
    const past: Option<set<Res>>
    const clientRoles: set<Role>

    constructor (acls: map<Res, AclDict>, dynacls: map<Res, DynaclDict>, past: Option<set<Res>>, clientRoles: set<Role>)
      requires forall r | r in acls :: acls[r].subject == r && acls[r].Valid()
      requires forall r, q | r in dynacls && q in dynacls && r != q :: dynacls[r] != dynacls[q]
      ensures Valid() && this.acls == acls && this.dynacls == dynacls
      ensures this.past == past && this.clientRoles == clientRoles
    {
      this.acls, this.dynacls, this.past, this.clientRoles := acls, dynacls, past, clientRoles;
      cache := new RightsCache();
    }

    ghost function Dicts(): set<object> {
      (set r | r in acls :: acls[r] as object) + (set r | r in dynacls :: dynacls[r] as object)
    }

    ghost function Value(): Policy
      reads Dicts()
    {
      Policy(map r | r in acls :: acls[r].items, map r | r in dynacls :: dynacls[r].items, past)
    }

    ghost predicate WellBuilt()
      reads Dicts()
    {
      && cache !in Dicts()
      && (forall r | r in acls :: acls[r].subject == r && acls[r].Valid())
      && (forall r, q | r in dynacls && q in dynacls && r != q :: dynacls[r] != dynacls[q])
    }

    ghost function Effective(roles: Option<set<Role>>): set<Role> {
      if roles.Some? then roles.value else clientRoles
    }

    /** Every cached decision is what recomputation would give. */
    ghost predicate CacheAgrees()
      reads cache, Dicts()
    {
      forall k | k in cache.entries ::
        cache.entries[k] == match k.layer
                            case Own => HasRight(Value(), k.r, k.right, Effective(k.roles))
                            case Shared => BaseRight(Value(), k.r, k.right, Effective(k.roles))
    }

    ghost predicate Valid()
      reads cache, Dicts()
    {
      WellBuilt() && CacheAgrees()
    }

    /** The shared rule under `cache_rights`. The cache key records `anonOk`,
        but the rule is always run without it. */
    method SharedRight(r: Res, right: Right, roles: Option<set<Role>>, anonOk: bool) returns (d: Decision)
      requires Valid()
      modifies cache
      ensures Valid() && Value() == old(Value())
      ensures d == BaseRight(Value(), r, right, Effective(roles))
      decreases 4 * Level(r) + 1
    {
      var key := CacheKey(r, Shared, right, roles, anonOk);
      if key in cache.entries {
        return cache.entries[key];
      }
      d := ComputeShared(r, right, if roles.Some? then roles.value else clientRoles);
      cache.entries := cache.entries[key := d];
    }

    method ComputeShared(r: Res, right: Right, roles: set<Role>) returns (d: Decision)
      requires Valid()
      modifies cache
      ensures Valid() && Value() == old(Value())
      ensures d == BaseRight(Value(), r, right, roles)
      decreases 4 * Level(r), 1
    {
      if roles == {"*"} && right !in {"enumerate", "select"} {
        return Deny;
      }
      if r in acls {
        var explicit := acls[r].Intersects(right, roles);
        if explicit {
          return Allow;
        }
      }
      var above := InheritedRight(r, right, roles);
      if above {
        return Allow;
      }
      d := DynamicPart(r, right, roles);
    }

    /** Ownership of the parent, or its ACL when this one does not override it. */
    method InheritedRight(r: Res, right: Right, roles: set<Role>) returns (b: bool)
      requires Valid()
      modifies cache
      ensures Valid() && Value() == old(Value())
      ensures b == (
        && Parent(r).Some?
        && (|| HasRight(Value(), Parent(r).value, "owner", roles) == Allow
            || (right !in AclsOf(Value(), r) && HasRight(Value(), Parent(r).value, right, roles) == Allow)))
      decreases 4 * Level(r), 0
    {
      var up := Parent(r);
      if up.None? {
        return false;
      }
      var d := OwnRight(up.value, "owner", Some(roles));
      if d == Allow {
        return true;
      }
      if r in acls && right in acls[r].items {
        return false;
      }
      d := OwnRight(up.value, right, Some(roles));
      b := d == Allow;
    }

    /** Dynamic bindings, own then inherited; resources without any pass on an
        undecided parent. */
    method DynamicPart(r: Res, right: Right, roles: set<Role>) returns (d: Decision)
      requires Valid()
      modifies cache
      ensures Valid() && Value() == old(Value())
      ensures d == DynamicDecision(Value(), r, right, roles, if Parent(r).Some?
        then HasRight(Value(), Parent(r).value, right, roles) else Deny)
      decreases 4 * Level(r), 0
    {
      var up := Parent(r);
      if HasDynacls(r) {
        var own := if r in dynacls then dynacls[r].items else map[];
        if SomeInScope(own, map[], right, roles) {
          return Maybe;
        }
        if up.Some? && HasDynacls(up.value) {
          var inherited := if up.value in dynacls then dynacls[up.value].items else map[];
          if SomeInScope(inherited, own, right, roles) {
            return Maybe;
          }
        }
      } else if up.Some? {
        d := OwnRight(up.value, right, Some(roles));
        if d == Maybe {
          return;
        }
      }
      d := Deny;
    }

    /** `has_right` of a resource, memoised. Catalogs and schemas have only the
        shared rule. */
    method OwnRight(r: Res, right: Right, roles: Option<set<Role>>) returns (d: Decision)
      requires Valid()
      modifies cache
      ensures Valid() && Value() == old(Value())
      ensures d == HasRight(Value(), r, right, Effective(roles))
      decreases 4 * Level(r) + 3
    {
      if r.Catalog? || r.Schema? {
        d := SharedRight(r, right, roles, false);
        return;
      }
      var key := CacheKey(r, Own, right, roles, false);
      if key in cache.entries {
        return cache.entries[key];
      }
      d := ComputeOwn(r, right, roles);
      cache.entries := cache.entries[key := d];
    }

    method ComputeOwn(r: Res, right: Right, roles: Option<set<Role>>) returns (d: Decision)
      requires Valid() && !r.Catalog? && !r.Schema?
      modifies cache
      ensures Valid() && Value() == old(Value())
      ensures d == HasRight(Value(), r, right, Effective(roles))
      decreases 4 * Level(r) + 2
    {
      match r
      case Table(s, t) =>
        d := OwnRight(Schema(s), "enumerate", roles);
        if d != Allow || TableBlocked(Policy(map[], map[], past), r, right) {
          return Deny;
        }
        d := SharedRight(r, right, roles, false);
      case Column(s, t, c) =>
        if ColumnBlocked(r, right) {
          return Deny;
        }
        d := OwnRight(Table(s, t), right, roles);
        if d != Deny {
          d := SharedRight(r, right, roles, false);
        }
      case Key(s, t, cols) =>
        d := KeyRight(r, roles);
      case FkeyRef(s, t, cols, unique) =>
        if right == "enumerate" {
          if unique.Key? {
            d := OwnRight(unique, "enumerate", roles);
            if d != Allow {
              return Deny;
            }
          }
          d := ColumnsRight(s, t, cols, "enumerate", roles);
          if d != Allow {
            return Deny;
          }
          d := ColumnsRight(s, t, cols, "select", roles);
          if d == Deny {
            return Deny;
          }
        }
        if right in {"update", "insert"} && (r !in acls || right !in acls[r].items) {
          return Allow;
        }
        d := SharedRight(r, right, roles, true);
    }

    method KeyRight(r: Res, roles: Option<set<Role>>) returns (d: Decision)
      requires Valid() && r.Key?
      modifies cache
      ensures Valid() && Value() == old(Value())
      ensures d == HasRight(Value(), r, "enumerate", Effective(roles))
      decreases 17
    {
      for i := 0 to |r.columns|
        invariant Valid() && Value() == old(Value())
        invariant forall j | 0 <= j < i ::
          HasRight(Value(), Column(r.schema, r.table, r.columns[j]), "enumerate", Effective(roles)) == Allow
      {
        d := OwnRight(Column(r.schema, r.table, r.columns[i]), "enumerate", roles);
        if d != Allow {
          return Deny;
        }
      }
      for i := 0 to |r.columns|
        invariant Valid() && Value() == old(Value())
        invariant forall j | 0 <= j < i ::
          HasRight(Value(), Column(r.schema, r.table, r.columns[j]), "select", Effective(roles)) != Deny
      {
        d := OwnRight(Column(r.schema, r.table, r.columns[i]), "select", roles);
        if d == Deny {
          return Deny;
        }
      }
      d := Allow;
    }

    method ColumnsRight(s: string, t: string, cols: seq<string>, right: Right, roles: Option<set<Role>>)
        returns (d: Decision)
      requires Valid()
      modifies cache
      ensures Valid() && Value() == old(Value())
      ensures d == ColumnsHaveRight(Value(), s, t, cols, right, Effective(roles))
      decreases 17
    {
      for i := 0 to |cols|
        invariant Valid() && Value() == old(Value())
        invariant ColumnsHaveRight(Value(), s, t, cols, right, Effective(roles)) ==
                  ColumnsHaveRight(Value(), s, t, cols[i..], right, Effective(roles))
      {
        d := OwnRight(Column(s, t, cols[i]), right, roles);
        if d != Allow {
          return;
        }
      }
      d := Allow;
    }

    // ------------------------------------------------------------- edits
    // A failed edit may leave the in-memory ACLs changed: the request is then
    // abandoned together with this private copy of the model.

    /** The outcome and the new state are those of the policy transition. */
    ghost predicate Performs(r: Result<Policy, EditError>, e: Option<EditError>)
      reads cache, Dicts()
    {
      && Valid()
      && (e == None <==> r.Ok?)
      && (r.Ok? ==> Value() == r.value)
      && (r.Err? ==> e == Some(r.error))
    }

    method EnforceOwner(r: Res) returns (passes: bool)
      requires Valid()
      modifies cache
      ensures Valid() && Value() == old(Value())
      ensures passes == OwnerPasses(Value(), r, clientRoles)
    {
      var d := OwnRight(r, "owner", None);
      passes := d != Deny;
    }

    method PutItem(r: Res, name: Right, members: Option<set<Role>>)
      requires Valid() && r in acls
      modifies cache, acls[r]
      ensures Valid()
      ensures Value() == WithAcls(old(Value()), r, AclsOf(old(Value()), r)[name := members])
    {
      acls[r].SetItem(name, members, cache);
      assert Value().acls == old(Value()).acls[r := acls[r].items];
    }

    method RemoveItem(r: Res, name: Right)
      requires Valid() && r in acls && CanRemove(r)
      modifies cache, acls[r]
      ensures Valid()
      ensures Value() == WithAcls(old(Value()), r, AclsOf(old(Value()), r) - {name})
    {
      if name in acls[r].items {
        acls[r].DelItem(name, cache);
      } else {
        assert acls[r].items - {name} == acls[r].items;
      }
      assert acls[r].items == AclsOf(old(Value()), r) - {name};
      assert Value().acls == old(Value()).acls[r := acls[r].items];
    }

    method UpdateItems(r: Res, doc: Acls)
      requires Valid() && r in acls
      modifies cache, acls[r]
      ensures Valid()
      ensures Value() == WithAcls(old(Value()), r, AclsOf(old(Value()), r) + doc)
    {
      acls[r].Update(doc, cache);
      assert Value().acls == old(Value()).acls[r := acls[r].items];
    }

    method PutBinding(r: Res, name: string, binding: Option<Binding>)
      requires Valid() && r in dynacls
      modifies cache, dynacls[r]
      ensures Valid()
      ensures Value() == WithDynacls(old(Value()), r, DynaclsOf(old(Value()), r)[name := binding])
    {
      dynacls[r].SetItem(name, binding, cache);
      assert Value().dynacls == old(Value()).dynacls[r := dynacls[r].items];
    }

    method RemoveBinding(r: Res, name: string)
      requires Valid() && r in dynacls
      modifies cache, dynacls[r]
      ensures Valid()
      ensures Value() == WithDynacls(old(Value()), r, DynaclsOf(old(Value()), r) - {name})
    {
      if name in dynacls[r].items {
        dynacls[r].DelItem(name, cache);
      } else {
        assert dynacls[r].items - {name} == dynacls[r].items;
      }
      assert Value().dynacls == old(Value()).dynacls[r := dynacls[r].items];
    }

    method PutBindings(r: Res, doc: Dynacls)
      requires Valid() && r in dynacls
      modifies cache, dynacls[r]
      ensures Valid()
      ensures Value() == WithDynacls(old(Value()), r, doc)
    {
      dynacls[r].Replace(doc, cache);
      assert Value().dynacls == old(Value()).dynacls[r := dynacls[r].items];
    }

    method StoreAcl(r: Res, name: Right, members: set<Role>, anonOk: bool) returns (e: Option<EditError>)
      requires Valid() && r in acls
      modifies cache, acls[r]
      ensures Performs(AclEdits.StoreAcl(old(Value()), r, name, members, anonOk, clientRoles), e)
    {
      var passes := EnforceOwner(r);
      if !passes {
        return Some(Forbidden);
      }
      if name !in Supported(r) {
        return Some(NotSupported);
      }
      if WildcardRefused(name, members, anonOk) {
        return Some(BadMembers);
      }
      PutItem(r, name, Some(members));
      passes := EnforceOwner(r);
      e := if passes then None else Some(Forbidden);
    }

    method SetAcl(r: Res, name: Right, members: Option<set<Role>>, anonOk: bool) returns (e: Option<EditError>)
      requires Valid() && r in acls
      modifies cache, acls[r]
      ensures Performs(AclEdits.SetAcl(old(Value()), r, name, members, anonOk, clientRoles), e)
    {
      if members.None? && CanRemove(r) {
        e := DeleteAcl(r, name);
      } else {
        e := StoreAcl(r, name, if members.Some? then members.value else {}, anonOk);
      }
    }

    method DeleteAcl(r: Res, name: Right) returns (e: Option<EditError>)
      requires Valid() && r in acls
      modifies cache, acls[r]
      ensures Performs(AclEdits.DeleteAcl(old(Value()), r, name, clientRoles), e)
    {
      var passes := EnforceOwner(r);
      if !passes {
        return Some(Forbidden);
      }
      if name !in Supported(r) {
        return Some(NotSupported);
      }
      if !CanRemove(r) {
        e := StoreAcl(r, name, {}, false);
        return;
      }
      RemoveItem(r, name);
      passes := EnforceOwner(r);
      e := if passes then None else Some(Forbidden);
    }

    method DeleteAllAcls(r: Res, purging: bool, order: seq<Right>) returns (e: Option<EditError>)
      requires Valid() && r in acls
      modifies cache, acls[r]
      ensures Performs(AclEdits.DeleteAllAcls(old(Value()), r, purging, order, clientRoles), e)
    {
      var passes := EnforceOwner(r);
      if !passes {
        return Some(Forbidden);
      }
      ghost var before := Value();
      if CanRemove(r) {
        acls[r].Clear(cache);
        assert Value() == WithAcls(before, r, map[]);
        if !purging {
          passes := EnforceOwner(r);
          if !passes {
            return Some(Forbidden);
          }
        }
        return None;
      }
      for i := 0 to |order|
        invariant Valid()
        invariant EmptyEach(before, r, order, clientRoles) == EmptyEach(Value(), r, order[i..], clientRoles)
      {
        e := StoreAcl(r, order[i], {}, false);
        if e.Some? {
          return;
        }
      }
      e := None;
    }

    method SetAcls(r: Res, doc: Acls, anonOk: bool, order: seq<Right>) returns (e: Option<EditError>)
      requires Valid() && r in acls
      modifies cache, acls[r]
      ensures Performs(AclEdits.SetAcls(old(Value()), r, doc, anonOk, order, clientRoles), e)
    {
      if !(doc.Keys <= Supported(r)) {
        return Some(NotSupported);
      }
      e := DeleteAllAcls(r, true, order);
      if e.Some? {
        return;
      }
      UpdateItems(r, doc);
      var passes := EnforceOwner(r);
      if !passes {
        return Some(Forbidden);
      }
      if WildcardInDoc(acls[r].items, anonOk) {
        return Some(BadMembers);
      }
      e := None;
    }

    /** The two loops of a PUT of a whole ACL document. */
    method PutDocument(r: Res, doc: Acls, stored: seq<Right>, names: seq<Right>, anonOk: bool)
        returns (e: Option<EditError>)
      requires Valid() && r in acls
      modifies cache, acls[r]
      ensures Performs(AclEdits.PutDocument(old(Value()), r, doc, stored, names, anonOk, clientRoles), e)
    {
      var passes := EnforceOwner(r);
      if !passes {
        return Some(Forbidden);
      }
      e := DropAll(r, Missing(stored, doc));
      if e.Some? {
        return;
      }
      e := PutAll(r, doc, names, anonOk);
    }

    method DropAll(r: Res, names: seq<Right>) returns (e: Option<EditError>)
      requires Valid() && r in acls
      modifies cache, acls[r]
      ensures Performs(DropEach(old(Value()), r, names, clientRoles), e)
    {
      ghost var before := Value();
      for i := 0 to |names|
        invariant Valid() && DropEach(before, r, names[..i], clientRoles) == Ok(Value())
      {
        assert names[..i + 1][..i] == names[..i];
        e := DeleteAcl(r, names[i]);
        if e.Some? {
          DropEachStops(before, r, names, clientRoles, i + 1);
          return;
        }
      }
      assert names[..|names|] == names;
      e := None;
    }

    method PutAll(r: Res, doc: Acls, names: seq<Right>, anonOk: bool) returns (e: Option<EditError>)
      requires Valid() && r in acls
      modifies cache, acls[r]
      ensures Performs(PutEach(old(Value()), r, doc, names, anonOk, clientRoles), e)
    {
      ghost var before := Value();
      for i := 0 to |names|
        invariant Valid() && PutEach(before, r, doc, names[..i], anonOk, clientRoles) == Ok(Value())
      {
        assert names[..i + 1][..i] == names[..i];
        if names[i] !in doc || doc[names[i]].None? {
          e := Some(BadMembers);
        } else {
          e := SetAcl(r, names[i], doc[names[i]], anonOk);
        }
        if e.Some? {
          PutEachStops(before, r, doc, names, anonOk, clientRoles, i + 1);
          return;
        }
      }
      assert names[..|names|] == names;
      e := None;
    }

    method SetDynacl(r: Res, name: string, binding: Option<Binding>) returns (e: Option<EditError>)
      requires Valid() && r in dynacls
      modifies cache, dynacls[r]
      ensures Performs(AclEdits.SetDynacls(old(Value()), r, DynaclsOf(old(Value()), r)[name := binding],
        clientRoles), e)
    {
      var passes := EnforceOwner(r);
      if !passes {
        return Some(Forbidden);
      }
      PutBinding(r, name, binding);
      e := None;
    }

    method DeleteDynacl(r: Res, name: string) returns (e: Option<EditError>)
      requires Valid() && r in dynacls
      modifies cache, dynacls[r]
      ensures Performs(AclEdits.SetDynacls(old(Value()), r, DynaclsOf(old(Value()), r) - {name}, clientRoles), e)
    {
      var passes := EnforceOwner(r);
      if !passes {
        return Some(Forbidden);
      }
      RemoveBinding(r, name);
      e := None;
    }

    method ReplaceDynacls(r: Res, doc: Dynacls) returns (e: Option<EditError>)
      requires Valid() && r in dynacls
      modifies cache, dynacls[r]
      ensures Performs(AclEdits.SetDynacls(old(Value()), r, doc, clientRoles), e)
    {
      var passes := EnforceOwner(r);
      if !passes {
        return Some(Forbidden);
      }
      PutBindings(r, doc);
      e := None;
    }
  }
}
