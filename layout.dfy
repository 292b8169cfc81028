/** The client's sidebar: the table of navigation items with the roles
    each is shown to, the items a viewer sees, and the active item. */
module Layout {
  import opened Common

  datatype NavItem = NavItem(path: string, caption: string, roles: seq<Role>)

  const EVERYONE: seq<Role> := [Student, Teacher, Admin]
  const STAFF_ROLES: seq<Role> := [Teacher, Admin]

  /** `navItems`, in the sidebar's order. */
  const NAV_ITEMS: seq<NavItem> := [
    NavItem("/dashboard", "Dashboard", EVERYONE),
    NavItem("/upload", "Upload Notes", STAFF_ROLES),
    NavItem("/notes", "View Notes", EVERYONE),
    NavItem("/favorites", "Favorites", EVERYONE),
    NavItem("/analytics", "Analytics", STAFF_ROLES),
    NavItem("/announcements", "Announcements", EVERYONE),
    NavItem("/profile", "Profile", EVERYONE),
    NavItem("/about", "About", EVERYONE),
    NavItem("/contact", "Contact", EVERYONE)
  ]

  /** `user?.role || 'student'`: without a signed-in user the sidebar is
      a student's. */
  function ViewerRole(viewer: Option<Role>): (r: Role)
    ensures viewer.None? ==> r == Student
    ensures viewer.Some? ==> r == viewer.value
  {
    match viewer
    case None => Student
    case Some(role) => role
  }

  /** The items shown: those whose roles hold the viewer's role, in the
      table's order. */
  function VisibleItems(viewer: Option<Role>): (r: seq<NavItem>)
    ensures forall item :: item in r <==> item in NAV_ITEMS && ViewerRole(viewer) in item.roles
    ensures IsSubseq(r, NAV_ITEMS)
  {
    FilterIsSubseq(NAV_ITEMS, (item: NavItem) => ViewerRole(viewer) in item.roles);
    Filter(NAV_ITEMS, (item: NavItem) => ViewerRole(viewer) in item.roles)
  }

  /** An item of the table is shown exactly when its roles hold the
      viewer's role. */
  lemma ItemShown(viewer: Option<Role>, i: nat)
    requires i < |NAV_ITEMS|
    ensures NAV_ITEMS[i] in VisibleItems(viewer) <==> ViewerRole(viewer) in NAV_ITEMS[i].roles
  {
    assert NAV_ITEMS[i] in NAV_ITEMS;
  }

  /** Upload Notes and Analytics are shown to teachers and admins only. */
  lemma StaffOnlyItems(viewer: Option<Role>)
    ensures NAV_ITEMS[1].caption == "Upload Notes" && NAV_ITEMS[4].caption == "Analytics"
    ensures NAV_ITEMS[1] in VisibleItems(viewer) <==> viewer.Some? && viewer.value in STAFF
    ensures NAV_ITEMS[4] in VisibleItems(viewer) <==> viewer.Some? && viewer.value in STAFF
  {
    ItemShown(viewer, 1);
    ItemShown(viewer, 4);
    assert NAV_ITEMS[1].roles == STAFF_ROLES && NAV_ITEMS[4].roles == STAFF_ROLES;
  }

  /** The seven other items are shown to everyone, signed in or not. */
  lemma OtherItemsForEveryone(viewer: Option<Role>)
    ensures forall i :: 0 <= i < |NAV_ITEMS| && i != 1 && i != 4 ==> NAV_ITEMS[i] in VisibleItems(viewer)
  {
    forall i | 0 <= i < |NAV_ITEMS| && i != 1 && i != 4 ensures NAV_ITEMS[i] in VisibleItems(viewer) {
      ItemShown(viewer, i);
      assert ViewerRole(viewer) in EVERYONE;
      EveryoneItem(i);
    }
  }

  lemma EveryoneItem(i: nat)
    requires i < |NAV_ITEMS| && i != 1 && i != 4
    ensures NAV_ITEMS[i].roles == EVERYONE
  {
    if i == 0 {
    } else if i == 2 {
    } else if i == 3 {
    } else if i == 5 {
    } else if i == 6 {
    } else if i == 7 {
    } else {
      assert i == 8;
    }
  }

  /** `location.pathname === item.path`. */
  predicate IsActive(pathname: string, item: NavItem)
  {
    pathname == item.path
  }

  /** The paths of the table are distinct, so at most one item is active. */
  lemma AtMostOneActive(pathname: string, i: nat, j: nat)
    requires i < |NAV_ITEMS| && j < |NAV_ITEMS|
    requires IsActive(pathname, NAV_ITEMS[i]) && IsActive(pathname, NAV_ITEMS[j])
    ensures i == j
  {
  }
}
