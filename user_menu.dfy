/** Menu-permission resolution, `UserService.get_menu_by_token`
    (backend/app/services/system/user.py). The session's user id, the user rows,
    the role rows and the menu catalog are parameters; each store query is a
    filter of its rows in store order. `MenuService.menu_assembly` is not part of
    this model: resolution stops at the pair (roots, all menus) handed to it. */
module UserMenu {
  import opened Base
  import opened Text
  import opened Users

  /** The `user_type` of a superuser. */
  const SuperuserType: int := 10

  /** A role row; `menus` is the comma-separated ids of the menus it grants. */
  datatype Role = Role(id: int, menus: string)

  /** A catalog row; parent 0 marks a root. */
  datatype Menu = Menu(id: int, parentId: int, title: string)

  /** No menus (the empty list), the arguments of `menu_assembly`, or the
      ValueError of a role whose menu ids do not parse. */
  datatype MenuResult = NoMenus | Assembly(roots: seq<Menu>, all: seq<Menu>) | Raises

  /** The role ids in a user's roles column, a JSON list of ids. */
  function RoleIds(roles: Json): set<int>
  {
    if roles.JList? then set i | 0 <= i < |roles.items| && roles.items[i].JInt? :: roles.items[i].i else {}
  }

  /** `Roles.get_roles_by_ids(ids)`: the role rows with those ids, in store order. */
  function RolesByIds(store: seq<Role>, ids: set<int>): (r: seq<Role>)
    ensures forall x :: x in r <==> x in store && x.id in ids
  {
    if store == [] then []
    else (if store[0].id in ids then [store[0]] else []) + RolesByIds(store[1..], ids)
  }

  /** `Menu.get_menu_by_ids(ids)`: the catalog rows with those ids, in catalog order. */
  function MenusByIds(catalog: seq<Menu>, ids: set<int>): (r: seq<Menu>)
    ensures forall m :: m in r <==> m in catalog && m.id in ids
  {
    if catalog == [] then []
    else (if catalog[0].id in ids then [catalog[0]] else []) + MenusByIds(catalog[1..], ids)
  }

  /** The parent ids `Menu.get_parent_id_by_ids(ids)` reports: the parent of
      each catalog row whose id is in `ids`. */
  function ParentIdsOf(catalog: seq<Menu>, ids: set<int>): (r: seq<int>)
    ensures forall p :: p in r <==> exists m :: m in catalog && m.id in ids && m.parentId == p
  {
    if catalog == [] then []
    else
      var rest := ParentIdsOf(catalog[1..], ids);
      assert forall m :: m in catalog <==> m == catalog[0] || m in catalog[1..];
      (if catalog[0].id in ids then [catalog[0].parentId] else []) + rest
  }

  /** `[i["id"] for i in all_menu]`. */
  function MenuIdsOf(menus: seq<Menu>): (r: seq<int>)
    ensures |r| == |menus|
    ensures forall i :: 0 <= i < |menus| ==> r[i] == menus[i].id
  {
    if menus == [] then [] else [menus[0].id] + MenuIdsOf(menus[1..])
  }

  /** `[menu for menu in all_menu if menu['parent_id'] == 0]`. */
  function Roots(menus: seq<Menu>): (r: seq<Menu>)
    ensures forall m :: m in r <==> m in menus && m.parentId == 0
  {
    if menus == [] then []
    else (if menus[0].parentId == 0 then [menus[0]] else []) + Roots(menus[1..])
  }

  /** `set(xs)`. */
  function ToSet(xs: seq<int>): set<int>
  {
    set x | x in xs
  }

  /** The ids one role grants: `list(map(int, menus.split(',')))`. */
  function Granted(role: Role): Option<seq<int>>
  {
    ParseInts(Split(role.menus, ','))
  }

  /** What each role row grants, in order. */
  function GrantsOf(roles: seq<Role>): (gs: seq<Option<seq<int>>>)
    ensures |gs| == |roles|
    ensures forall k :: 0 <= k < |roles| ==> gs[k] == Granted(roles[k])
  {
    if roles == [] then [] else [Granted(roles[0])] + GrantsOf(roles[1..])
  }

  /** A role's menu string splits into at least one piece, so a role that
      parses grants at least one id. */
  lemma GrantsNonEmpty(roles: seq<Role>)
    ensures forall k :: 0 <= k < |roles| && GrantsOf(roles)[k].Some? ==> GrantsOf(roles)[k].value != []
  {
    forall k | 0 <= k < |roles| && GrantsOf(roles)[k].Some? ensures GrantsOf(roles)[k].value != [] {
      assert |Split(roles[k].menus, ',')| >= 1;
    }
  }

  /** `for i in roles: menu_ids += ...`: the grants concatenated in order,
      None as soon as one of them failed. */
  function Accumulate(gs: seq<Option<seq<int>>>): Option<seq<int>>
  {
    if gs == [] then Some([])
    else
      match Accumulate(gs[..|gs| - 1])
      case None => None
      case Some(prefix) =>
        match gs[|gs| - 1]
        case None => None
        case Some(ids) => Some(prefix + ids)
  }

  /** The ids of the role rows, accumulated. */
  function RoleMenuIds(roles: seq<Role>): Option<seq<int>>
  {
    Accumulate(GrantsOf(roles))
  }

  /** The accumulation gets through exactly when every grant parses. */
  lemma {:induction false} AccumulateDefined(gs: seq<Option<seq<int>>>)
    ensures Accumulate(gs).Some? <==> forall k :: 0 <= k < |gs| ==> gs[k].Some?
  {
    if gs != [] {
      var front := gs[..|gs| - 1];
      AccumulateDefined(front);
      assert forall k :: 0 <= k < |front| ==> front[k] == gs[k];
    }
  }

  /** An id that one of the grants holds. */
  ghost predicate InSome(gs: seq<Option<seq<int>>>, x: int)
  {
    exists k :: 0 <= k < |gs| && gs[k].Some? && x in gs[k].value
  }

  lemma InSomeLast(gs: seq<Option<seq<int>>>, x: int)
    requires gs != []
    ensures InSome(gs, x) <==> InSome(gs[..|gs| - 1], x) || (gs[|gs| - 1].Some? && x in gs[|gs| - 1].value)
  {
    var front := gs[..|gs| - 1];
    if InSome(gs, x) {
      var k :| 0 <= k < |gs| && gs[k].Some? && x in gs[k].value;
      if k < |front| {
        assert front[k] == gs[k];
      }
    }
    if InSome(front, x) {
      var k :| 0 <= k < |front| && front[k].Some? && x in front[k].value;
      assert front[k] == gs[k];
    }
  }

  /** The accumulated ids are the ids the grants hold between them; there are
      none only when there is no grant, if no grant is empty. */
  lemma {:induction false} AccumulateMembers(gs: seq<Option<seq<int>>>)
    requires Accumulate(gs).Some?
    ensures forall x :: x in Accumulate(gs).value <==> InSome(gs, x)
    ensures (forall k :: 0 <= k < |gs| && gs[k].Some? ==> gs[k].value != []) ==>
      (Accumulate(gs).value == [] <==> gs == [])
  {
    if gs != [] {
      var front := gs[..|gs| - 1];
      AccumulateMembers(front);
      assert forall k :: 0 <= k < |front| ==> front[k] == gs[k];
      var prefix := Accumulate(front).value;
      var ids := gs[|gs| - 1].value;
      assert Accumulate(gs).value == prefix + ids;
      forall x ensures x in Accumulate(gs).value <==> InSome(gs, x) {
        InSomeLast(gs, x);
      }
    }
  }

  /** The menu ids a user's role rows grant between them. */
  ghost predicate GrantedTo(roles: seq<Role>, x: int)
  {
    InSome(GrantsOf(roles), x)
  }

  /** The resolution as a function of the stores. No session, an unknown user
      and a user with no roles see nothing, a superuser included. A superuser
      takes the whole catalog. Any other user takes the ids its roles grant
      plus, when there are any, the parents of the granted menus (one level),
      and gets the catalog rows with those ids. The roots are the rows with
      parent 0. */
  function MenuByToken(session: Option<int>, users: map<int, User>, roleStore: seq<Role>, catalog: seq<Menu>)
    : (r: MenuResult)
    ensures session.None? || session.value !in users ==> r == NoMenus
    ensures session.Some? && session.value in users && !Truthy(users[session.value].roles) ==> r == NoMenus
    ensures r.Assembly? ==> forall m :: m in r.roots <==> m in r.all && m.parentId == 0
    ensures r.Assembly? ==> forall m :: m in r.all ==> m in catalog
  {
    if session.None? || session.value !in users then NoMenus
    else
      var user := users[session.value];
      if !Truthy(user.roles) then NoMenus
      else if user.userType == SuperuserType then
        if catalog == [] then NoMenus else Assembly(Roots(catalog), catalog)
      else match RoleMenuIds(RolesByIds(roleStore, RoleIds(user.roles)))
        case None => Raises
        case Some(ids) =>
          if ids == [] then NoMenus
          else
            var all := MenusByIds(catalog, ToSet(ids + ParentIdsOf(catalog, ToSet(ids))));
            Assembly(Roots(all), all)
  }

  /** One more grant: the accumulation so far extended by it, or None. */
  lemma AccumulateStep(gs: seq<Option<seq<int>>>, i: nat)
    requires i < |gs|
    ensures Accumulate(gs[..i + 1]) ==
      if Accumulate(gs[..i]).None? || gs[i].None? then None
      else Some(Accumulate(gs[..i]).value + gs[i].value)
  {
    assert gs[..i + 1][..i] == gs[..i];
    assert gs[..i + 1][i] == gs[i];
  }

  /** A failing role fails the whole loop. */
  lemma FailureFailsAll(gs: seq<Option<seq<int>>>, j: nat)
    requires j <= |gs|
    requires Accumulate(gs[..j]).None?
    ensures Accumulate(gs).None?
  {
    AccumulateDefined(gs[..j]);
    AccumulateDefined(gs);
    var k :| 0 <= k < |gs[..j]| && gs[..j][k].None?;
    assert gs[..j][k] == gs[k];
  }

  /** The loop of `get_menu_by_token` over the role rows: the id list grows
      role by role with `+=`; the first role whose ids do not parse raises. */
  method CollectMenuIds(roles: seq<Role>) returns (r: Option<seq<int>>)
    ensures r == RoleMenuIds(roles)
  {
    ghost var gs := GrantsOf(roles);
    var menuIds: seq<int> := [];
    for i := 0 to |roles|
      invariant Accumulate(gs[..i]) == Some(menuIds)
    {
      AccumulateStep(gs, i);
      assert gs[i] == Granted(roles[i]);
      var ids := Granted(roles[i]);
      if ids.None? {
        FailureFailsAll(gs, i + 1);
        return None;
      }
      menuIds := menuIds + ids.value;
    }
    assert gs[..|roles|] == gs;
    return Some(menuIds);
  }

  /** `get_menu_by_token` as written. */
  method GetMenuByToken(session: Option<int>, users: map<int, User>, roleStore: seq<Role>, catalog: seq<Menu>)
    returns (r: MenuResult)
    ensures r == MenuByToken(session, users, roleStore, catalog)
  {
    if session.None? || session.value !in users {
      return NoMenus;
    }
    var user := users[session.value];
    if !Truthy(user.roles) {
      return NoMenus;
    }
    var menuIds: seq<int> := [];
    var all: seq<Menu>;
    if user.userType == SuperuserType {
      all := catalog;
      menuIds := menuIds + MenuIdsOf(all);
    } else {
      var roles := RolesByIds(roleStore, RoleIds(user.roles));
      var granted := CollectMenuIds(roles);
      if granted.None? {
        return Raises;
      }
      menuIds := granted.value;
      if menuIds == [] {
        return NoMenus;
      }
      var parents := ParentIdsOf(catalog, ToSet(menuIds));
      menuIds := menuIds + parents;
      all := MenusByIds(catalog, ToSet(menuIds));
    }
    var roots := Roots(all);
    if menuIds == [] {
      return NoMenus;
    }
    return Assembly(roots, all);
  }

  // ---------------------------------------------------------------- properties

  /** A superuser with roles sees the whole catalog, whatever its roles grant. */
  lemma SuperuserSeesCatalog(uid: int, users: map<int, User>, roleStore: seq<Role>, catalog: seq<Menu>)
    requires uid in users && Truthy(users[uid].roles) && users[uid].userType == SuperuserType
    ensures catalog == [] ==> MenuByToken(Some(uid), users, roleStore, catalog) == NoMenus
    ensures catalog != [] ==> MenuByToken(Some(uid), users, roleStore, catalog) == Assembly(Roots(catalog), catalog)
  {
  }

  /** For any other user: the resolution raises exactly when one of its role
      rows has a menu id that does not parse; it gives no menus exactly when
      no role row was found; otherwise a catalog row is among the menus exactly
      when it is granted, or is the parent of a granted catalog row. */
  lemma StandardUserMenus(uid: int, users: map<int, User>, roleStore: seq<Role>, catalog: seq<Menu>)
    requires uid in users && Truthy(users[uid].roles) && users[uid].userType != SuperuserType
    ensures var roles := RolesByIds(roleStore, RoleIds(users[uid].roles));
      var r := MenuByToken(Some(uid), users, roleStore, catalog);
      && (r == Raises <==> SomeRoleFails(roles))
      && (r == NoMenus <==> roles == [])
      && (r.Assembly? ==> forall m :: m in r.all <==> GrantedOrParent(roles, catalog, m))
  {
    var roles := RolesByIds(roleStore, RoleIds(users[uid].roles));
    var gs := GrantsOf(roles);
    var r := MenuByToken(Some(uid), users, roleStore, catalog);
    StandardResolution(uid, users, roleStore, catalog);
    AccumulateDefined(gs);
    match RoleMenuIds(roles)
    case None =>
      assert r == Raises;
      var k :| 0 <= k < |gs| && gs[k].None?;
      assert Granted(roles[k]).None?;
    case Some(ids) =>
      assert !SomeRoleFails(roles) by {
        forall k | 0 <= k < |roles| ensures Granted(roles[k]).Some? {
          assert gs[k].Some?;
        }
      }
      GrantsNonEmpty(roles);
      AccumulateMembers(gs);
      if ids == [] {
        assert r == NoMenus;
      } else {
        var all := MenusByIds(catalog, ToSet(ids + ParentIdsOf(catalog, ToSet(ids))));
        assert r == Assembly(Roots(all), all);
        GrantedMenus(roles, catalog, ids);
      }
  }

  /** The branch of the resolution a user who is not a superuser takes. */
  lemma StandardResolution(uid: int, users: map<int, User>, roleStore: seq<Role>, catalog: seq<Menu>)
    requires uid in users && Truthy(users[uid].roles) && users[uid].userType != SuperuserType
    ensures MenuByToken(Some(uid), users, roleStore, catalog) ==
      match RoleMenuIds(RolesByIds(roleStore, RoleIds(users[uid].roles)))
      case None => Raises
      case Some(ids) =>
        if ids == [] then NoMenus
        else
          var all := MenusByIds(catalog, ToSet(ids + ParentIdsOf(catalog, ToSet(ids))));
          Assembly(Roots(all), all)
  {
  }

  /** Some role row's menu ids do not parse. */
  ghost predicate SomeRoleFails(roles: seq<Role>)
  {
    exists k :: 0 <= k < |roles| && Granted(roles[k]).None?
  }

  /** A catalog row that is granted, or is the parent of a granted catalog row. */
  ghost predicate GrantedOrParent(roles: seq<Role>, catalog: seq<Menu>, m: Menu)
  {
    m in catalog && (GrantedTo(roles, m.id) || exists c :: c in catalog && GrantedTo(roles, c.id) && c.parentId == m.id)
  }

  /** The rows fetched for granted ids `ids` plus their parents are the
      granted catalog rows and the parents of granted catalog rows. */
  lemma GrantedMenus(roles: seq<Role>, catalog: seq<Menu>, ids: seq<int>)
    requires forall x :: x in ids <==> GrantedTo(roles, x)
    ensures var all := MenusByIds(catalog, ToSet(ids + ParentIdsOf(catalog, ToSet(ids))));
      forall m :: m in all <==> GrantedOrParent(roles, catalog, m)
  {
    var parents := ParentIdsOf(catalog, ToSet(ids));
    var all := MenusByIds(catalog, ToSet(ids + parents));
    forall m ensures m in all <==> GrantedOrParent(roles, catalog, m) {
      assert m.id in ToSet(ids + parents) <==> m.id in ids || m.id in parents;
      assert m.id in parents <==> exists c :: c in catalog && c.id in ToSet(ids) && c.parentId == m.id;
    }
  }

  lemma RoleIdsOfOne(x: int)
    ensures RoleIds(JList([JInt(x)])) == {x}
  {
    var j := JList([JInt(x)]);
    assert j.items[0].JInt?;
  }

  lemma RoleMenuIdsOfOne(role: Role)
    requires Granted(role).Some?
    ensures RoleMenuIds([role]) == Granted(role)
  {
    var gs := GrantsOf([role]);
    assert gs == [Granted(role)];
    assert gs[..0] == [];
    assert Accumulate(gs[..0]) == Some([]);
    assert gs[|gs| - 1] == Granted(role);
    assert [] + Granted(role).value == Granted(role).value;
  }

  lemma GrantedThree()
    ensures Granted(Role(7, "3")) == Some([3])
  {
    SplitNoSeparator("3", ',');
    ParseIntOfNat(3);
    assert NatToString(3) == "3";
    var g := ParseInts(["3"]);
    assert g.value == [3];
  }

  lemma GrantedThreeFive()
    ensures Granted(Role(7, "3,5")) == Some([3, 5])
  {
    var pieces := Split("3,5", ',');
    assert pieces == ["3", "5"] by {
      SplitAtFirst("3", "5", ',');
      SplitNoSeparator("5", ',');
      assert "3" + [','] + "5" == "3,5";
    }
    ParseIntOfNat(3);
    ParseIntOfNat(5);
    assert NatToString(3) == "3" && NatToString(5) == "5";
    var g := ParseInts(pieces);
    assert g.value == [3, 5];
  }

  /** The catalog rows with the given ids and the one-level back-fill, as
      the resolution of a user whose one role grants `ids` computes them. */
  lemma StandardUserResolves(users: map<int, User>, role: Role, catalog: seq<Menu>, ids: seq<int>)
    requires 1 in users && users[1].roles == JList([JInt(role.id)]) && users[1].userType != SuperuserType
    requires Granted(role) == Some(ids) && ids != []
    ensures var all := MenusByIds(catalog, ToSet(ids + ParentIdsOf(catalog, ToSet(ids))));
      MenuByToken(Some(1), users, [role], catalog) == Assembly(Roots(all), all)
  {
    RoleIdsOfOne(role.id);
    assert RolesByIds([role], {role.id}) == [role];
    RoleMenuIdsOfOne(role);
  }

  /** `StandardUserResolves` with the fetched rows named. */
  lemma StandardUserResolvesTo(users: map<int, User>, role: Role, catalog: seq<Menu>, ids: seq<int>, all: seq<Menu>)
    requires 1 in users && users[1].roles == JList([JInt(role.id)]) && users[1].userType != SuperuserType
    requires Granted(role) == Some(ids) && ids != []
    requires MenusByIds(catalog, ToSet(ids + ParentIdsOf(catalog, ToSet(ids)))) == all
    ensures MenuByToken(Some(1), users, [role], catalog) == Assembly(Roots(all), all)
  {
    StandardUserResolves(users, role, catalog, ids);
  }

  lemma ExampleCatalog()
    ensures var catalog := [Menu(3, 2, "c"), Menu(5, 2, "e"), Menu(2, 0, "b")];
      MenusByIds(catalog, ToSet([3, 5] + ParentIdsOf(catalog, ToSet([3, 5])))) == catalog
  {
    var catalog := [Menu(3, 2, "c"), Menu(5, 2, "e"), Menu(2, 0, "b")];
    assert ToSet([3, 5]) == {3, 5};
    var parents := ParentIdsOf(catalog, {3, 5});
    assert parents == [2, 2];
    assert ToSet([3, 5] + parents) == {2, 3, 5};
    assert MenusByIds(catalog, {2, 3, 5}) == catalog;
  }

  /** The example of a role granting 3 and 5 (as the string "3,5" does, by
      `GrantedThreeFive`) over the catalog 3 → 2, 5 → 2, 2 → 0: the back-fill
      adds 2, which is the one root. */
  lemma BackFillExample(users: map<int, User>, role: Role, catalog: seq<Menu>)
    requires 1 in users && users[1].roles == JList([JInt(role.id)]) && users[1].userType == 0
    requires Granted(role) == Some([3, 5])
    requires catalog == [Menu(3, 2, "c"), Menu(5, 2, "e"), Menu(2, 0, "b")]
    ensures MenuByToken(Some(1), users, [role], catalog) == Assembly([Menu(2, 0, "b")], catalog)
  {
    ExampleCatalog();
    StandardUserResolvesTo(users, role, catalog, [3, 5], catalog);
    assert Roots(catalog) == [Menu(2, 0, "b")];
  }

  lemma ChainCatalog()
    ensures var catalog := [Menu(3, 2, "leaf"), Menu(2, 1, "mid"), Menu(1, 0, "top")];
      MenusByIds(catalog, ToSet([3] + ParentIdsOf(catalog, ToSet([3])))) == [Menu(3, 2, "leaf"), Menu(2, 1, "mid")]
  {
    var catalog := [Menu(3, 2, "leaf"), Menu(2, 1, "mid"), Menu(1, 0, "top")];
    assert ToSet([3]) == {3};
    var parents := ParentIdsOf(catalog, {3});
    assert parents == [2];
    assert ToSet([3] + parents) == {2, 3};
    assert MenusByIds(catalog, {2, 3}) == [Menu(3, 2, "leaf"), Menu(2, 1, "mid")];
  }

  /** The back-fill reaches one level only: a role granting a menu three levels
      deep (1 → 2 → 3; the string "3" grants it, by `GrantedThree`) gets the
      menu and its parent but not the root above them, so the assembly
      receives no root at all. */
  lemma BackFillIsOneLevel(users: map<int, User>, role: Role, catalog: seq<Menu>)
    requires 1 in users && users[1].roles == JList([JInt(role.id)]) && users[1].userType == 0
    requires Granted(role) == Some([3])
    requires catalog == [Menu(3, 2, "leaf"), Menu(2, 1, "mid"), Menu(1, 0, "top")]
    ensures MenuByToken(Some(1), users, [role], catalog) == Assembly([], [Menu(3, 2, "leaf"), Menu(2, 1, "mid")])
  {
    ChainCatalog();
    StandardUserResolvesTo(users, role, catalog, [3], [Menu(3, 2, "leaf"), Menu(2, 1, "mid")]);
    assert Roots([Menu(3, 2, "leaf"), Menu(2, 1, "mid")]) == [];
  }

  /** No two rows share an id. */
  predicate DistinctIds(menus: seq<Menu>)
  {
    forall i, j :: 0 <= i < j < |menus| ==> menus[i].id != menus[j].id
  }

  /** Two roles granting the same menu yield it once: every catalog row is
      fetched at most once, so distinct catalog ids stay distinct. */
  lemma {:induction false} FetchedOnce(catalog: seq<Menu>, ids: set<int>)
    requires DistinctIds(catalog)
    ensures DistinctIds(MenusByIds(catalog, ids))
  {
    if catalog != [] {
      var tail := catalog[1..];
      DistinctTail(catalog);
      FetchedOnce(tail, ids);
      var rest := MenusByIds(tail, ids);
      forall m | m in rest ensures m.id != catalog[0].id {
        var j :| 0 <= j < |tail| && tail[j] == m;
        assert tail[j] == catalog[j + 1];
      }
      if catalog[0].id in ids {
        assert MenusByIds(catalog, ids) == [catalog[0]] + rest;
        DistinctCons(catalog[0], rest);
      } else {
        assert MenusByIds(catalog, ids) == rest;
      }
    }
  }

  lemma DistinctTail(catalog: seq<Menu>)
    requires catalog != [] && DistinctIds(catalog)
    ensures DistinctIds(catalog[1..])
  {
    var tail := catalog[1..];
    forall i, j | 0 <= i < j < |tail| ensures tail[i].id != tail[j].id {
      assert tail[i] == catalog[i + 1] && tail[j] == catalog[j + 1];
    }
  }

  lemma DistinctCons(x: Menu, rest: seq<Menu>)
    requires DistinctIds(rest)
    requires forall m :: m in rest ==> m.id != x.id
    ensures DistinctIds([x] + rest)
  {
    var all := [x] + rest;
    forall i, j | 0 <= i < j < |all| ensures all[i].id != all[j].id {
      assert all[j] == rest[j - 1];
      assert rest[j - 1] in rest;
      if i > 0 {
        assert all[i] == rest[i - 1];
      }
    }
  }
}
