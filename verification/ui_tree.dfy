/** `MainDialog.set_tree` of ui.py: the location -> user -> device tree built
    from the database. The database is a set of tables (sequences in query
    order, each row once) and the responsibility triples linking a device,
    a user and a location. */
module UiTree {
  import opened PyText
  import opened Sorting

  datatype Location = Location(uid: int, name: string)

  /** A user or a device together with its `str()`. */
  datatype Member = Member(uid: int, display: string)

  /** `Responsibility(device, user, location)`, by uid. */
  datatype Responsibility = Responsibility(device: int, user: int, location: int)

  datatype Database = Database(
    locations: seq<Location>,
    users: seq<Member>,
    devices: seq<Member>,
    resps: seq<Responsibility>)

  datatype UserNode = UserNode(user: Member, devices: seq<Member>)
  datatype LocationNode = LocationNode(location: Location, users: seq<UserNode>)

  /** Some responsibility names `user` at `location`. */
  predicate ResponsibleAt(resps: seq<Responsibility>, user: int, location: int) {
    exists i :: 0 <= i < |resps| && resps[i].user == user && resps[i].location == location
  }

  function LocationName(l: Location): string { l.name }
  function Display(m: Member): string { m.display }

  /** `session.query(User).join(Responsibility).filter_by(location=location)`,
      sorted by `str(user)`. */
  function UsersAt(db: Database, location: Location): (r: seq<Member>)
    ensures SortedBy(r, Display)
    ensures forall u :: u in r <==> u in db.users && ResponsibleAt(db.resps, u.uid, location.uid)
    ensures forall u :: multiset(r)[u] == if ResponsibleAt(db.resps, u.uid, location.uid) then multiset(db.users)[u] else 0
  {
    var matching := Filter(db.users, (u: Member) => ResponsibleAt(db.resps, u.uid, location.uid));
    var r := SortBy(matching, Display);
    SameElements(r, matching);
    r
  }

  /** `session.query(Device).join(Responsibility).filter_by(user=user,
      location=location)`, sorted by `str(device)`. */
  function DevicesOf(db: Database, user: Member, location: Location): (r: seq<Member>)
    ensures SortedBy(r, Display)
    ensures forall d :: d in r <==> d in db.devices && Responsibility(d.uid, user.uid, location.uid) in db.resps
    ensures forall d :: multiset(r)[d] ==
              if Responsibility(d.uid, user.uid, location.uid) in db.resps then multiset(db.devices)[d] else 0
  {
    var matching := Filter(db.devices, (d: Member) => Responsibility(d.uid, user.uid, location.uid) in db.resps);
    var r := SortBy(matching, Display);
    SameElements(r, matching);
    r
  }

  lemma SameElements<T>(a: seq<T>, b: seq<T>)
    requires multiset(a) == multiset(b)
    ensures forall x :: x in a <==> x in b
  {
    forall x
      ensures x in a <==> x in b
    {
      assert x in a <==> x in multiset(a);
      assert x in b <==> x in multiset(b);
    }
  }

  function UserNodes(db: Database, users: seq<Member>, location: Location): (r: seq<UserNode>)
    ensures |r| == |users|
    ensures forall i :: 0 <= i < |r| ==> r[i] == UserNode(users[i], DevicesOf(db, users[i], location))
  {
    if |users| == 0 then [] else [UserNode(users[0], DevicesOf(db, users[0], location))] + UserNodes(db, users[1..], location)
  }

  /** The items of one location: its user items, each with its device items. */
  function LocationItem(db: Database, location: Location): LocationNode {
    LocationNode(location, UserNodes(db, UsersAt(db, location), location))
  }

  function Locations(t: seq<LocationNode>): (r: seq<Location>)
    ensures |r| == |t| && forall i :: 0 <= i < |t| ==> r[i] == t[i].location
  {
    seq(|t|, i requires 0 <= i < |t| => t[i].location)
  }

  /** The test of line 164: some user is responsible at the location. */
  function Staffed(db: Database): Location -> bool {
    (l: Location) => UsersAt(db, l) != []
  }

  /** The loop over the sorted locations: a location without responsible
      users is skipped (`continue`). The items follow the given locations, in
      their order and with their repeats, leaving out the unstaffed ones. */
  function LocationItems(db: Database, locations: seq<Location>): (r: seq<LocationNode>)
    ensures forall i :: 0 <= i < |r| ==> r[i] == LocationItem(db, r[i].location)
    ensures forall l :: l in Locations(r) <==> l in locations && UsersAt(db, l) != []
    ensures SortedBy(locations, LocationName) ==> SortedBy(Locations(r), LocationName)
    ensures Locations(r) == Filter(locations, Staffed(db))
  {
    if |locations| == 0 then []
    else
      var rest := LocationItems(db, locations[1..]);
      var r := if UsersAt(db, locations[0]) == [] then rest else [LocationItem(db, locations[0])] + rest;
      LocationItemsStep(db, locations, rest, r);
      r
  }

  lemma LocationItemsStep(db: Database, locations: seq<Location>, rest: seq<LocationNode>, r: seq<LocationNode>)
    requires |locations| > 0
    requires forall i :: 0 <= i < |rest| ==> rest[i] == LocationItem(db, rest[i].location)
    requires forall l :: l in Locations(rest) <==> l in locations[1..] && UsersAt(db, l) != []
    requires SortedBy(locations[1..], LocationName) ==> SortedBy(Locations(rest), LocationName)
    requires Locations(rest) == Filter(locations[1..], Staffed(db))
    requires r == if UsersAt(db, locations[0]) == [] then rest else [LocationItem(db, locations[0])] + rest
    ensures forall i :: 0 <= i < |r| ==> r[i] == LocationItem(db, r[i].location)
    ensures forall l :: l in Locations(r) <==> l in locations && UsersAt(db, l) != []
    ensures SortedBy(locations, LocationName) ==> SortedBy(Locations(r), LocationName)
    ensures Locations(r) == Filter(locations, Staffed(db))
  {
    var present := UsersAt(db, locations[0]) != [];
    StepLocations(db, locations[0], rest, r, present);
    assert Staffed(db)(locations[0]) == present;
    StepMembership(db, locations, Locations(rest), Locations(r), present);
    if SortedBy(locations, LocationName) {
      Sorting.TailSorted(locations, LocationName);
    }
    if present {
      PrependSorted(locations, Locations(rest));
    }
  }

  lemma StepLocations(db: Database, head: Location, rest: seq<LocationNode>, r: seq<LocationNode>, present: bool)
    requires forall i :: 0 <= i < |rest| ==> rest[i] == LocationItem(db, rest[i].location)
    requires r == if present then [LocationItem(db, head)] + rest else rest
    ensures forall i :: 0 <= i < |r| ==> r[i] == LocationItem(db, r[i].location)
    ensures Locations(r) == if present then [head] + Locations(rest) else Locations(rest)
  {
    if present {
      PrependBuilt(l => LocationItem(db, l), head, rest);
    }
  }

  /** Prepending the item built for `head` to items each built from its own
      location. `item` stands for `LocationItem` with the database fixed. */
  lemma PrependBuilt(item: Location -> LocationNode, head: Location, rest: seq<LocationNode>)
    requires item(head).location == head
    requires forall i :: 0 <= i < |rest| ==> rest[i] == item(rest[i].location)
    ensures forall i :: 0 <= i < |rest| + 1 ==> ([item(head)] + rest)[i] == item(([item(head)] + rest)[i].location)
    ensures Locations([item(head)] + rest) == [head] + Locations(rest)
  {
    var r := [item(head)] + rest;
    forall i | 0 <= i < |r|
      ensures r[i] == item(r[i].location)
    {
      if i > 0 {
        assert r[i] == rest[i - 1];
      }
    }
    assert |Locations(r)| == 1 + |Locations(rest)|;
    forall i | 0 <= i < |r|
      ensures Locations(r)[i] == ([head] + Locations(rest))[i]
    {
      if i > 0 {
        assert r[i] == rest[i - 1];
      }
    }
  }

  lemma StepMembership(db: Database, locations: seq<Location>, rest: seq<Location>, locs: seq<Location>, present: bool)
    requires |locations| > 0
    requires present == (UsersAt(db, locations[0]) != [])
    requires forall l :: l in rest <==> l in locations[1..] && UsersAt(db, l) != []
    requires locs == if present then [locations[0]] + rest else rest
    ensures forall l :: l in locs <==> l in locations && UsersAt(db, l) != []
  {
    assert forall l :: l in locations <==> l == locations[0] || l in locations[1..];
  }

  /** Putting the first location in front of items built from the others
      keeps the name order. */
  lemma PrependSorted(locations: seq<Location>, rest: seq<Location>)
    requires |locations| > 0
    requires forall l :: l in rest ==> l in locations[1..]
    requires SortedBy(locations, LocationName) ==> SortedBy(locations[1..], LocationName) && SortedBy(rest, LocationName)
    ensures SortedBy(locations, LocationName) ==> SortedBy([locations[0]] + rest, LocationName)
  {
    if SortedBy(locations, LocationName) {
      var r := [locations[0]] + rest;
      forall i, j | 0 <= i < j < |r|
        ensures LexLe(LocationName(r[i]), LocationName(r[j]))
      {
        if i == 0 {
          assert r[j] in locations[1..];
          var k :| 0 <= k < |locations[1..]| && locations[1..][k] == r[j];
          assert locations[k + 1] == r[j];
        } else {
          assert r[i] == rest[i - 1] && r[j] == rest[j - 1];
        }
      }
    }
  }

  /** `set_tree`: locations sorted by name, each followed by its users sorted
      by `str`, each followed by its devices sorted by `str`. */
  function SetTree(db: Database): (tree: seq<LocationNode>)
    ensures SortedBy(Locations(tree), LocationName)
    ensures forall l :: l in Locations(tree) <==>
              l in db.locations && exists u :: u in db.users && ResponsibleAt(db.resps, u.uid, l.uid)
    ensures forall l :: multiset(Locations(tree))[l] ==
              if exists u :: u in db.users && ResponsibleAt(db.resps, u.uid, l.uid) then multiset(db.locations)[l] else 0
    ensures forall i :: 0 <= i < |tree| ==> tree[i] == LocationItem(db, tree[i].location)
  {
    var locations := SortBy(db.locations, LocationName);
    SameElements(locations, db.locations);
    var tree := LocationItems(db, locations);
    UsersAtNonEmpty(db);
    StaffedCount(db, locations, Locations(tree));
    tree
  }

  lemma StaffedCount(db: Database, locations: seq<Location>, shown: seq<Location>)
    requires multiset(locations) == multiset(db.locations)
    requires shown == Filter(locations, Staffed(db))
    requires forall l :: (UsersAt(db, l) != []) <==> exists u :: u in db.users && ResponsibleAt(db.resps, u.uid, l.uid)
    ensures forall l :: multiset(shown)[l] ==
              if exists u :: u in db.users && ResponsibleAt(db.resps, u.uid, l.uid) then multiset(db.locations)[l] else 0
  {
    forall l
      ensures multiset(shown)[l] ==
                if exists u :: u in db.users && ResponsibleAt(db.resps, u.uid, l.uid) then multiset(db.locations)[l] else 0
    {
      assert Staffed(db)(l) == (UsersAt(db, l) != []);
    }
  }

  lemma UsersAtNonEmpty(db: Database)
    ensures forall l :: (UsersAt(db, l) != []) <==> exists u :: u in db.users && ResponsibleAt(db.resps, u.uid, l.uid)
  {
    forall l
      ensures (UsersAt(db, l) != []) <==> exists u :: u in db.users && ResponsibleAt(db.resps, u.uid, l.uid)
    {
      if exists u :: u in db.users && ResponsibleAt(db.resps, u.uid, l.uid) {
        var u :| u in db.users && ResponsibleAt(db.resps, u.uid, l.uid);
        assert u in UsersAt(db, l);
      }
    }
  }

  /** The users shown by a location item's user items, in order. */
  function UsersOf(node: LocationNode): (r: seq<Member>)
    ensures |r| == |node.users| && forall k :: 0 <= k < |r| ==> r[k] == node.users[k].user
  {
    seq(|node.users|, k requires 0 <= k < |node.users| => node.users[k].user)
  }

  /** Under a location item, the user items are the users responsible there,
      each as often as in the users table, sorted by `str`; under each user
      item, the device items are the devices of a responsibility triple with
      that user and location, each as often as in the devices table, sorted by
      `str`. */
  lemma ItemContents(db: Database, l: Location, j: nat)
    ensures var node := LocationItem(db, l);
            && (forall u :: u in db.users && ResponsibleAt(db.resps, u.uid, l.uid) <==>
                  exists k :: 0 <= k < |node.users| && node.users[k].user == u)
            && (forall k, m :: 0 <= k < m < |node.users| ==> LexLe(node.users[k].user.display, node.users[m].user.display))
    ensures var node := LocationItem(db, l);
            j < |node.users| ==>
              && SortedBy(node.users[j].devices, Display)
              && forall d :: d in node.users[j].devices <==>
                   d in db.devices && Responsibility(d.uid, node.users[j].user.uid, l.uid) in db.resps
    ensures var node := LocationItem(db, l);
            forall u :: multiset(UsersOf(node))[u] ==
              if ResponsibleAt(db.resps, u.uid, l.uid) then multiset(db.users)[u] else 0
    ensures var node := LocationItem(db, l);
            j < |node.users| ==>
              forall d :: multiset(node.users[j].devices)[d] ==
                if Responsibility(d.uid, node.users[j].user.uid, l.uid) in db.resps then multiset(db.devices)[d] else 0
  {
    ItemUsers(db, l);
    ItemDevices(db, l, j);
  }

  lemma ItemUsers(db: Database, l: Location)
    ensures var node := LocationItem(db, l);
            && (forall u :: u in db.users && ResponsibleAt(db.resps, u.uid, l.uid) <==>
                  exists k :: 0 <= k < |node.users| && node.users[k].user == u)
            && (forall k, m :: 0 <= k < m < |node.users| ==> LexLe(node.users[k].user.display, node.users[m].user.display))
    ensures var node := LocationItem(db, l);
            forall u :: multiset(UsersOf(node))[u] ==
              if ResponsibleAt(db.resps, u.uid, l.uid) then multiset(db.users)[u] else 0
  {
    var users := UsersAt(db, l);
    var nodes := UserNodes(db, users, l);
    assert LocationItem(db, l).users == nodes;
    assert UsersOf(LocationItem(db, l)) == users;
    NodeUsers(users, nodes);
  }

  lemma ItemDevices(db: Database, l: Location, j: nat)
    ensures var node := LocationItem(db, l);
            j < |node.users| ==>
              && SortedBy(node.users[j].devices, Display)
              && forall d :: d in node.users[j].devices <==>
                   d in db.devices && Responsibility(d.uid, node.users[j].user.uid, l.uid) in db.resps
    ensures var node := LocationItem(db, l);
            j < |node.users| ==>
              forall d :: multiset(node.users[j].devices)[d] ==
                if Responsibility(d.uid, node.users[j].user.uid, l.uid) in db.resps then multiset(db.devices)[d] else 0
  {
    var users := UsersAt(db, l);
    var nodes := UserNodes(db, users, l);
    assert LocationItem(db, l).users == nodes;
    if j < |nodes| {
      assert nodes[j] == UserNode(users[j], DevicesOf(db, users[j], l));
    }
  }

  /** User items list the given users in the given order. */
  lemma NodeUsers(users: seq<Member>, nodes: seq<UserNode>)
    requires |nodes| == |users| && forall k :: 0 <= k < |nodes| ==> nodes[k].user == users[k]
    requires SortedBy(users, Display)
    ensures forall u :: u in users <==> exists k :: 0 <= k < |nodes| && nodes[k].user == u
    ensures forall k, m :: 0 <= k < m < |nodes| ==> LexLe(nodes[k].user.display, nodes[m].user.display)
  {
    forall u
      ensures u in users <==> exists k :: 0 <= k < |nodes| && nodes[k].user == u
    {
      if u in users {
        var k :| 0 <= k < |users| && users[k] == u;
        assert nodes[k].user == u;
      }
    }
    forall k, m | 0 <= k < m < |nodes|
      ensures LexLe(nodes[k].user.display, nodes[m].user.display)
    {
      assert Display(users[k]) == nodes[k].user.display;
      assert Display(users[m]) == nodes[m].user.display;
    }
  }

  /** The same for every location item of the tree. */
  lemma TreeContents(db: Database, i: nat, j: nat)
    requires i < |SetTree(db)|
    ensures var node := SetTree(db)[i];
            && (forall u :: u in db.users && ResponsibleAt(db.resps, u.uid, node.location.uid) <==>
                  exists k :: 0 <= k < |node.users| && node.users[k].user == u)
            && (forall k, m :: 0 <= k < m < |node.users| ==> LexLe(node.users[k].user.display, node.users[m].user.display))
    ensures var node := SetTree(db)[i];
            j < |node.users| ==>
              && SortedBy(node.users[j].devices, Display)
              && forall d :: d in node.users[j].devices <==>
                   d in db.devices && Responsibility(d.uid, node.users[j].user.uid, node.location.uid) in db.resps
    ensures var node := SetTree(db)[i];
            forall u :: multiset(UsersOf(node))[u] ==
              if ResponsibleAt(db.resps, u.uid, node.location.uid) then multiset(db.users)[u] else 0
    ensures var node := SetTree(db)[i];
            j < |node.users| ==>
              forall d :: multiset(node.users[j].devices)[d] ==
                if Responsibility(d.uid, node.users[j].user.uid, node.location.uid) in db.resps then multiset(db.devices)[d] else 0
  {
    var node := SetTree(db)[i];
    assert node == LocationItem(db, node.location);
    ItemContents(db, node.location, j);
  }
}
