/** The ACL manager's caches over its store, and the first matching rule (libshvbroker/src/aclmanager.cpp). */
module Acls {
  import opened ByteStrings
  import opened RoleGraphs
  import opened RoleTheorems

  type Name = Bytes

  datatype User = User(roles: seq<Role>, valid: bool)

  const NO_USER := User([], false)

  datatype Rule = Rule(path: Bytes, methodName: Bytes, access: Bytes)

  /** What the configuration holds. */
  datatype Store = Store(users: map<Name, User>, roles: Graph, rules: map<Role, seq<Rule>>)

  /** _Role#Key: */
  const ROLE_KEY: Name := [95, 82, 111, 108, 101, 35, 75, 101, 121, 58]

  /** _Ldap#Key: */
  const LDAP_KEY: Name := [95, 76, 100, 97, 112, 35, 75, 101, 121, 58]

  /** _Azure#Key: */
  const AZURE_KEY: Name := [95, 65, 122, 117, 114, 101, 35, 75, 101, 121, 58]

  function UserDef(store: Store, name: Name): User { if name in store.users then store.users[name] else NO_USER }

  // ---------------------------------------------------------------- the cached role lists as a value

  /** The store and the lists that have been computed, by the key they are cached under. */
  datatype Acl = Acl(store: Store, flat: map<Name, seq<Role>>)

  /** Changes of the store, and lookups; those of directory users bring the roles to start from. */
  datatype Op =
    | SetUser(name: Name, user: User)
    | SetRole(role: Role, subRoles: Option<seq<Role>>)
    | UserRoles(name: Name)
    | RoleRoles(role: Role)
    | LdapRoles(name: Name, roles: seq<Role>)
    | AzureRoles(name: Name, roles: seq<Role>)
  {
    predicate IsLookup() { !SetUser? && !SetRole? }
  }

  function CacheKey(op: Op): Name
    requires op.IsLookup()
  {
    match op
    case UserRoles(name) => name
    case RoleRoles(role) => ROLE_KEY + role
    case LdapRoles(name, _) => LDAP_KEY + name
    case AzureRoles(name, _) => AZURE_KEY + name
  }

  function Seeds(store: Store, op: Op): seq<Role>
    requires op.IsLookup()
  {
    match op
    case UserRoles(name) => UserDef(store, name).roles
    case RoleRoles(role) => [role]
    case LdapRoles(_, roles) => roles
    case AzureRoles(_, roles) => roles
  }

  function Cached(acl: Acl, key: Name, seeds: seq<Role>): Acl
  {
    if key in acl.flat then acl else acl.(flat := acl.flat[key := FlattenRoles(acl.store.roles, seeds)])
  }

  function StoreRole(roles: Graph, role: Role, subRoles: Option<seq<Role>>): Graph
  {
    if subRoles.Some? then roles[role := subRoles.value] else roles - {role}
  }

  function Apply(acl: Acl, op: Op): Acl
  {
    match op
    case SetUser(name, user) => Acl(acl.store.(users := acl.store.users[name := user]), map[])
    case SetRole(role, subRoles) => Acl(acl.store.(roles := StoreRole(acl.store.roles, role, subRoles)), map[])
    case _ => Cached(acl, CacheKey(op), Seeds(acl.store, op))
  }

  /** What a lookup returns: the list under its key, computed first if it is not there. */
  function Answer(acl: Acl, op: Op): (r: seq<Role>)
    requires op.IsLookup()
  {
    Apply(acl, op).flat[CacheKey(op)]
  }

  /** The list that a lookup would compute from the present store. */
  function Fresh(store: Store, op: Op): seq<Role>
    requires op.IsLookup()
  {
    FlattenRoles(store.roles, Seeds(store, op))
  }

  function Run(ops: seq<Op>, start: Store): Acl
  {
    if ops == [] then Acl(start, map[]) else Apply(Run(ops[..|ops| - 1], start), ops[|ops| - 1])
  }

  // ---------------------------------------------------------------- what the cache shows

  /** The oldest lookup since the last change that used the key of this one, or this one itself. */
  function FirstAsked(ops: seq<Op>, op: Op): (r: Op)
    requires op.IsLookup()
    ensures r.IsLookup() && CacheKey(r) == CacheKey(op)
  {
    if ops == [] || !ops[|ops| - 1].IsLookup() then op
    else
      var last := ops[|ops| - 1];
      FirstAsked(ops[..|ops| - 1], if CacheKey(last) == CacheKey(op) then last else op)
  }

  /** After any run, a lookup is answered with what the oldest lookup under its key would compute now. */
  lemma {:induction false} AnswerIsFirstAsked(ops: seq<Op>, start: Store, op: Op)
    requires op.IsLookup()
    ensures Answer(Run(ops, start), op) == Fresh(Run(ops, start).store, FirstAsked(ops, op))
  {
    if ops != [] && ops[|ops| - 1].IsLookup() {
      var last := ops[|ops| - 1];
      AnswerIsFirstAsked(ops[..|ops| - 1], start, if CacheKey(last) == CacheKey(op) then last else op);
    }
  }

  /** Whether two operations do not compute different lists under one key. */
  predicate Compatible(op: Op, other: Op)
    requires op.IsLookup()
  {
    other.IsLookup() && CacheKey(other) == CacheKey(op) ==> other == op
  }

  /** After any run whose other lookups use other keys, a lookup answers as if nothing were cached. */
  lemma {:induction false} CacheIsInvisible(ops: seq<Op>, start: Store, op: Op)
    requires op.IsLookup() && forall i | 0 <= i < |ops| :: Compatible(op, ops[i])
    ensures Answer(Run(ops, start), op) == Fresh(Run(ops, start).store, op)
  {
    AnswerIsFirstAsked(ops, start, op);
    OnlyAsked(ops, op);
  }

  lemma {:induction false} OnlyAsked(ops: seq<Op>, op: Op)
    requires op.IsLookup() && forall i | 0 <= i < |ops| :: Compatible(op, ops[i])
    ensures FirstAsked(ops, op) == op
  {
    if ops != [] {
      assert Compatible(op, ops[|ops| - 1]);
      OnlyAsked(ops[..|ops| - 1], op);
    }
  }

  // ---------------------------------------------------------------- names that share a key

  /** User names that cannot be mistaken for the key of another kind of lookup. */
  predicate Unreserved(name: Name) { !(ROLE_KEY <= name) && !(LDAP_KEY <= name) && !(AZURE_KEY <= name) }

  lemma SamePrefix(prefix: Name, a: Name, b: Name)
    requires prefix + a == prefix + b
    ensures a == b
  {
    assert a == (prefix + a)[|prefix|..] == (prefix + b)[|prefix|..] == b;
  }

  /** The three prefixes do not overlap: the second byte tells them apart. */
  lemma PrefixesAreApart(role: Name, ldap: Name, azure: Name)
    ensures (ROLE_KEY + role)[1] == 82 && (LDAP_KEY + ldap)[1] == 76 && (AZURE_KEY + azure)[1] == 65
  {
  }

  /** Lookups share a key only if they are of one kind and ask for one name, or one asks for a reserved user name. */
  lemma KeysAreApart(a: Op, b: Op)
    requires a.IsLookup() && b.IsLookup() && CacheKey(a) == CacheKey(b)
    requires a.UserRoles? ==> Unreserved(a.name)
    requires b.UserRoles? ==> Unreserved(b.name)
    ensures match a
            case UserRoles(_) => a == b
            case RoleRoles(_) => a == b
            case LdapRoles(name, _) => b.LdapRoles? && b.name == name
            case AzureRoles(name, _) => b.AzureRoles? && b.name == name
  {
    PrefixesAreApart(if a.RoleRoles? then a.role else [], if a.LdapRoles? then a.name else [],
      if a.AzureRoles? then a.name else []);
    PrefixesAreApart(if b.RoleRoles? then b.role else [], if b.LdapRoles? then b.name else [],
      if b.AzureRoles? then b.name else []);
    if a.RoleRoles? && b.RoleRoles? {
      SamePrefix(ROLE_KEY, a.role, b.role);
    } else if a.LdapRoles? && b.LdapRoles? {
      SamePrefix(LDAP_KEY, a.name, b.name);
    } else if a.AzureRoles? && b.AzureRoles? {
      SamePrefix(AZURE_KEY, a.name, b.name);
    }
  }

  /** Whether a user is answered after a run as if nothing were cached. */
  predicate AnswersFreshly(ops: seq<Op>, start: Store, name: Name)
  {
    Answer(Run(ops, start), UserRoles(name)) == Fresh(Run(ops, start).store, UserRoles(name))
  }

  lemma UnreservedIsFresh(ops: seq<Op>, start: Store, name: Name)
    requires Unreserved(name)
    ensures AnswersFreshly(ops, start, name)
  {
    forall i | 0 <= i < |ops| ensures Compatible(UserRoles(name), ops[i]) {
      if ops[i].IsLookup() && CacheKey(ops[i]) == name && !ops[i].UserRoles? {
        KeysAreApart(UserRoles(name), ops[i]);
      }
    }
    CacheIsInvisible(ops, start, UserRoles(name));
  }

  /** A user whose name is the key of another lookup is answered with that lookup's list once it was made. */
  lemma ReservedNameCollides(start: Store, op: Op)
    requires op.IsLookup()
    ensures Answer(Run([op], start), UserRoles(CacheKey(op))) == Fresh(start, op)
  {
  }

  const NO_STORE := Store(map[], map[], map[])

  /** Such a user, unknown to the store, is given the roles of the other lookup. */
  lemma ReservedNameGainsRole(op: Op, role: Role)
    requires op == RoleRoles(role) || ((op.LdapRoles? || op.AzureRoles?) && op.roles == [role])
    ensures var user := UserRoles(CacheKey(op));
      Fresh(NO_STORE, user) == [] && Answer(Run([op], NO_STORE), user) == [role]
  {
    ReservedNameCollides(NO_STORE, op);
    OneRole(role);
  }

  /** alice asks for her roles, and the user named _Azure#Key:alice is given them. */
  lemma AzureNameGainsRoles(alice: Name, role: Role)
    ensures var user := UserRoles(AZURE_KEY + alice);
      Fresh(NO_STORE, user) == [] && Answer(Run([AzureRoles(alice, [role])], NO_STORE), user) == [role]
  {
    ReservedNameGainsRole(AzureRoles(alice, [role]), role);
  }

  /** A directory user, first looked up with the roles of its groups, keeps them when it is asked with none. */
  lemma DirectoryKeepsFirstRoles(name: Name, role: Role)
    ensures var asked := AzureRoles(name, []);
      Fresh(NO_STORE, asked) == [] && Answer(Run([AzureRoles(name, [role])], NO_STORE), asked) == [role]
  {
    OneRole(role);
  }

  /** The lookup that reserves a name. */
  function Reserving(name: Name, role: Role): (op: Op)
    requires !Unreserved(name)
  {
    if ROLE_KEY <= name then RoleRoles(name[|ROLE_KEY|..])
    else if LDAP_KEY <= name then LdapRoles(name[|LDAP_KEY|..], [role])
    else AzureRoles(name[|AZURE_KEY|..], [role])
  }

  /** The user names that no run on any store can mislead are exactly the unreserved ones. */
  lemma NameIsSafeIff(name: Name)
    ensures Unreserved(name) <==> forall ops, start :: AnswersFreshly(ops, start, name)
  {
    if Unreserved(name) {
      forall ops, start ensures AnswersFreshly(ops, start, name) {
        UnreservedIsFresh(ops, start, name);
      }
    } else {
      var op := Reserving(name, name);
      assert CacheKey(op) == name;
      ReservedNameGainsRole(op, if op.RoleRoles? then op.role else name);
      assert !AnswersFreshly([op], NO_STORE, name);
    }
  }

  lemma OneRole(role: Role)
    ensures FlattenRoles(map[], [role]) == [role] && FlattenRoles(map[], []) == []
  {
    var g: Graph, none: seq<Role> := map[], [];
    StartReady(g, [role]);
    StartReady(g, none);
    var u := Universe(g, [role]);
    assert [role][1..] == none && none + [role] == [role] && [role] + none == [role];
    assert Enqueue(none, none, role) == [role];
    assert EnqueueAll(none, none, [role]) == EnqueueAll(none, [role], none) == [role];
    TakeFirst(u, g, none, [role]);
    assert SubRoles(g, role) == none && EnqueueAll([role], none, none) == none;
    assert Ready(u, g, [role], none);
    assert Flatten(u, g, [role], none) == [role];
  }

  // ---------------------------------------------------------------- what the store and the lists hold

  /** The user definition that was set last, or the one there was at first. */
  function LastUser(ops: seq<Op>, start: Store, name: Name): User
  {
    if ops == [] then if name in start.users then start.users[name] else NO_USER
    else
      match ops[|ops| - 1]
      case SetUser(n, user) => if n == name then user else LastUser(ops[..|ops| - 1], start, name)
      case _ => LastUser(ops[..|ops| - 1], start, name)
  }

  /** The sub-roles that were set last for a role; setting none takes the role away. */
  function LastRole(ops: seq<Op>, start: Store, role: Role): seq<Role>
  {
    if ops == [] then if role in start.roles then start.roles[role] else []
    else
      match ops[|ops| - 1]
      case SetRole(r, subRoles) =>
        if r != role then LastRole(ops[..|ops| - 1], start, role)
        else if subRoles.Some? then subRoles.value
        else []
      case _ => LastRole(ops[..|ops| - 1], start, role)
  }

  /** Setting a user or a role changes nothing else, and lookups change nothing. */
  lemma {:induction false} StoreIsAsSet(ops: seq<Op>, start: Store)
    ensures var store := Run(ops, start).store;
      && store.rules == start.rules
      && (forall name :: (if name in store.users then store.users[name] else NO_USER) == LastUser(ops, start, name))
      && (forall role :: (if role in store.roles then store.roles[role] else []) == LastRole(ops, start, role))
  {
    if ops != [] {
      StoreIsAsSet(ops[..|ops| - 1], start);
    }
  }

  /**
   After any run, a user whose name is not reserved is given exactly the roles that can be reached from those set for
   it, in breadth-first order.
   */
  lemma UserIsGivenRoles(ops: seq<Op>, start: Store, name: Name)
    requires Unreserved(name)
    ensures IsRoleList(Run(ops, start).store.roles, LastUser(ops, start, name).roles,
                       Answer(Run(ops, start), UserRoles(name)))
  {
    UnreservedIsFresh(ops, start, name);
    StoreIsAsSet(ops, start);
    FlattenIsRoleList(Run(ops, start).store.roles, LastUser(ops, start, name).roles);
  }

  /** So is the list of a role from that role, and that of a directory user from the roles it brings. */
  lemma LookupIsGivenRoles(ops: seq<Op>, start: Store, op: Op)
    requires (op.RoleRoles? || op.LdapRoles? || op.AzureRoles?) && forall i | 0 <= i < |ops| :: Compatible(op, ops[i])
    ensures IsRoleList(Run(ops, start).store.roles, if op.RoleRoles? then [op.role] else op.roles,
                       Answer(Run(ops, start), op))
  {
    CacheIsInvisible(ops, start, op);
    FlattenIsRoleList(Run(ops, start).store.roles, if op.RoleRoles? then [op.role] else op.roles);
  }

  // ---------------------------------------------------------------- the first matching rule

  function RulesOf(store: Store, role: Role): seq<Rule> { if role in store.rules then store.rules[role] else [] }

  ghost predicate NoneMatch(rules: seq<Rule>, matches: Rule -> bool)
  {
    forall k | 0 <= k < |rules| :: !matches(rules[k])
  }

  /** Rule `k` of role `i` matches, no rule of a role before it does, and none of its own before that one. */
  ghost predicate FirstMatches(store: Store, roles: seq<Role>, matches: Rule -> bool, i: nat, k: nat)
  {
    && i < |roles| && k < |RulesOf(store, roles[i])|
    && matches(RulesOf(store, roles[i])[k]) && NoneMatch(RulesOf(store, roles[i])[..k], matches)
    && forall j | 0 <= j < i :: NoneMatch(RulesOf(store, roles[j]), matches)
  }

  /** The grant is that of the first rule, in role order and then rule order, that matches. */
  ghost predicate IsFirstMatch(store: Store, roles: seq<Role>, matches: Rule -> bool, r: Option<Bytes>)
  {
    match r
    case None => forall i | 0 <= i < |roles| :: NoneMatch(RulesOf(store, roles[i]), matches)
    case Some(access) => exists i: nat, k: nat ::
      FirstMatches(store, roles, matches, i, k) && RulesOf(store, roles[i])[k].access == access
  }

  // ---------------------------------------------------------------- the manager as an object

  class AclManager {
    var store: Store
    var aclUsers: map<Name, User>                       // empty, or all names with the definitions loaded so far
    var aclAccessRules: map<Role, Option<seq<Rule>>>    // the same for the rules of roles
    var flattenRoles: map<Name, seq<Role>>

    ghost predicate Valid()
      reads this
    {
      && (aclUsers == map[] || aclUsers.Keys == store.users.Keys)
      && (forall name | name in aclUsers && name in store.users && aclUsers[name].valid ::
            aclUsers[name] == store.users[name])
      && (aclAccessRules == map[] || aclAccessRules.Keys == store.rules.Keys)
      && (forall role | role in aclAccessRules && role in store.rules && aclAccessRules[role].Some? ::
            aclAccessRules[role].value == store.rules[role])
    }

    function State(): Acl
      reads this
    {
      Acl(store, flattenRoles)
    }

    constructor (store: Store)
      ensures Valid() && State() == Acl(store, map[])
    {
      this.store, aclUsers, aclAccessRules, flattenRoles := store, map[], map[], map[];
    }

    method GetUser(name: Name) returns (user: User)
      requires Valid()
      modifies `aclUsers
      ensures Valid() && user == UserDef(store, name)
      ensures user == if name in store.users then store.users[name] else NO_USER
    {
      if aclUsers == map[] {
        aclUsers := map n | n in store.users :: NO_USER;
        assert aclUsers.Keys == store.users.Keys;
      }
      if name !in aclUsers {
        return NO_USER;
      }
      if !aclUsers[name].valid {
        aclUsers := aclUsers[name := store.users[name]];
        assert aclUsers.Keys == store.users.Keys;
      }
      user := aclUsers[name];
    }

    method SetUser(name: Name, user: User)
      requires Valid()
      modifies this
      ensures Valid() && State() == Apply(old(State()), Op.SetUser(name, user)) && flattenRoles == map[]
      ensures store == old(store).(users := old(store).users[name := user])
    {
      store := store.(users := store.users[name := user]);
      aclUsers, flattenRoles := map[], map[];
    }

    method SetRole(role: Role, subRoles: Option<seq<Role>>)
      requires Valid()
      modifies this
      ensures Valid() && State() == Apply(old(State()), Op.SetRole(role, subRoles)) && flattenRoles == map[]
      ensures store == old(store).(roles := store.roles)
      ensures forall r ::
        SubRoles(store.roles, r) ==
          if r != role then SubRoles(old(store).roles, r) else if subRoles.Some? then subRoles.value else []
    {
      store := store.(roles := StoreRole(store.roles, role, subRoles));
      flattenRoles := map[];
    }

    /** Looks the key up, and computes the list breadth-first if it is not there. */
    method UserFlattenRoles(key: Name, roles: seq<Role>) returns (r: seq<Role>)
      requires Valid()
      modifies `flattenRoles
      ensures Valid() && State() == Cached(old(State()), key, roles) && r == State().flat[key]
      ensures if key in old(flattenRoles) then r == old(flattenRoles)[key] else IsRoleList(store.roles, roles, r)
    {
      FlattenIsRoleList(store.roles, roles);
      if key !in flattenRoles {
        var list := Flattened(store.roles, roles);
        flattenRoles := flattenRoles[key := list];
      }
      r := flattenRoles[key];
    }

    method RolesOfUser(name: Name) returns (r: seq<Role>)
      requires Valid()
      modifies `aclUsers, `flattenRoles
      ensures Valid() && r == Answer(old(State()), UserRoles(name)) && State() == Apply(old(State()), UserRoles(name))
      ensures name !in old(flattenRoles) ==>
        IsRoleList(store.roles, if name in store.users then store.users[name].roles else [], r)
    {
      var user := GetUser(name);
      r := UserFlattenRoles(name, user.roles);
    }

    method FlattenRole(role: Role) returns (r: seq<Role>)
      requires Valid()
      modifies `flattenRoles
      ensures Valid() && r == Answer(old(State()), RoleRoles(role)) && State() == Apply(old(State()), RoleRoles(role))
    {
      r := UserFlattenRoles(ROLE_KEY + role, [role]);
    }

    method LdapUserFlattenRoles(name: Name, roles: seq<Role>) returns (r: seq<Role>)
      requires Valid()
      modifies `flattenRoles
      ensures Valid() && r == Answer(old(State()), LdapRoles(name, roles))
      ensures State() == Apply(old(State()), LdapRoles(name, roles))
    {
      r := UserFlattenRoles(LDAP_KEY + name, roles);
    }

    method AzureUserFlattenRoles(name: Name, roles: seq<Role>) returns (r: seq<Role>)
      requires Valid()
      modifies `flattenRoles
      ensures Valid() && r == Answer(old(State()), AzureRoles(name, roles))
      ensures State() == Apply(old(State()), AzureRoles(name, roles))
    {
      r := UserFlattenRoles(AZURE_KEY + name, roles);
    }

    method AccessRoleRules(role: Role) returns (rules: seq<Rule>)
      requires Valid()
      modifies `aclAccessRules
      ensures Valid() && rules == RulesOf(store, role)
      ensures rules == if role in store.rules then store.rules[role] else []
    {
      if aclAccessRules == map[] {
        aclAccessRules := map n | n in store.rules :: None;
        assert aclAccessRules.Keys == store.rules.Keys;
      }
      if role !in aclAccessRules {
        return [];
      }
      if aclAccessRules[role].None? {
        aclAccessRules := aclAccessRules[role := Some(store.rules[role])];
        assert aclAccessRules.Keys == store.rules.Keys;
      }
      rules := aclAccessRules[role].value;
    }

    /** The two loops that look for the first matching rule of a list of roles. */
    method FirstGrant(roles: seq<Role>, matches: Rule -> bool) returns (r: Option<Bytes>)
      requires Valid()
      modifies `aclAccessRules
      ensures Valid() && IsFirstMatch(store, roles, matches, r)
    {
      for i := 0 to |roles|
        invariant Valid()
        invariant forall j | 0 <= j < i :: NoneMatch(RulesOf(store, roles[j]), matches)
      {
        var rules := AccessRoleRules(roles[i]);
        for j := 0 to |rules|
          invariant NoneMatch(rules[..j], matches)
        {
          if matches(rules[j]) {
            assert FirstMatches(store, roles, matches, i, j);
            return Some(rules[j].access);
          }
        }
        assert rules[..|rules|] == rules;
      }
      r := None;
    }
  }

  /** The queue loop of `userFlattenRoles`. */
  method Flattened(g: Graph, seeds: seq<Role>) returns (list: seq<Role>)
    ensures list == FlattenRoles(g, seeds)
  {
    ghost var u := Universe(g, seeds);
    StartReady(g, seeds);
    list := [];
    var queue := EnqueueEach([], [], seeds);
    while queue != []
      invariant Ready(u, g, list, queue)
      invariant Flatten(u, g, list, queue) == FlattenRoles(g, seeds)
      decreases |u| - |list|
    {
      var cur := queue[0];
      TakeFirst(u, g, list, queue);
      SubRolesIn(u, g, list, queue, cur);
      EnqueueKeeps(u, g, list + [cur], queue[1..], SubRoles(g, cur));
      DistinctFits(list + queue, u);
      queue := queue[1..];
      list := list + [cur];
      queue := EnqueueEach(list, queue, SubRoles(g, cur));
    }
  }

  method EnqueueEach(done: seq<Role>, queue: seq<Role>, rs: seq<Role>) returns (q: seq<Role>)
    ensures q == EnqueueAll(done, queue, rs)
  {
    q := queue;
    var rest := rs;
    while rest != []
      invariant EnqueueAll(done, q, rest) == EnqueueAll(done, queue, rs)
    {
      q := Enqueue(done, q, rest[0]);
      rest := rest[1..];
    }
  }
}
