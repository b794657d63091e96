/** The three tables as values, and what each repository call does to them. Every call may fail on its connection,
    statement or commit (`up` false): it then changes no row and returns false or nothing. */
module Tables {
  import opened Strings
  import opened Transactions

  datatype UserRow = UserRow(id: nat, login: Bytes, password: Bytes, role: Bytes)

  /** A row as `findUserByLogin` returns it. */
  datatype UserData = UserData(id: nat, login: Bytes, password: Bytes, role: Bytes)

  /** The rows, and the next value of each serial column. A serial value is used up even by a rejected row. */
  datatype Tables = Tables(
    users: seq<UserRow>, nextUser: nat, houses: set<nat>, nextHouse: nat, flats: Flats, nextFlat: nat)

  // ---- UserRepository ----

  function LoginAt(users: seq<UserRow>, login: Bytes): (r: Option<nat>)
    ensures r.Some? ==> r.value < |users| && users[r.value].login == login
    ensures r.None? ==> forall i :: 0 <= i < |users| ==> users[i].login != login
  {
    if users == [] then None
    else if users[|users| - 1].login == login then Some(|users| - 1)
    else LoginAt(users[..|users| - 1], login)
  }

  /** INSERT INTO users, rejected by the UNIQUE constraint on login. */
  function SaveUser(t: Tables, login: Bytes, password: Bytes, role: Bytes, up: bool): Tables {
    if !up then t
    else if LoginAt(t.users, login).Some? then t.(nextUser := t.nextUser + 1)
    else t.(users := t.users + [UserRow(t.nextUser, login, password, role)], nextUser := t.nextUser + 1)
  }

  function FindUserByLogin(t: Tables, login: Bytes, up: bool): Option<UserData> {
    match LoginAt(t.users, login)
    case None => None
    case Some(i) =>
      var row := t.users[i];
      if up then Some(UserData(row.id, row.login, row.password, Chomp(row.role))) else None
  }

  // ---- HouseRepository ----

  function SaveHouse(t: Tables, up: bool): Tables {
    if up then t.(houses := t.houses + {t.nextHouse}, nextHouse := t.nextHouse + 1) else t
  }

  // ---- FlatRepository ----

  /** INSERT INTO flats, rejected by the foreign key when the house does not exist; the status column takes the default
      of the schema. */
  function SaveFlat(t: Tables, house: Int32, number: Int32, rooms: Int32, price: Int32, up: bool): Tables {
    if !up then t
    else if house !in t.houses then t.(nextFlat := t.nextFlat + 1)
    else t.(flats := t.flats[t.nextFlat := FlatRow(house, number, price, rooms, CREATED)], nextFlat := t.nextFlat + 1)
  }

  /** `takeFlat` or `UpdateFlatStatus` without interference. */
  function Update(t: Tables, st: Statement, up: bool): (bool, Tables) {
    if !up then (false, t)
    else
      var (ok, flats) := CompareAndSet(t.flats, st);
      (ok, t.(flats := flats))
  }

  /** A row of a listing, as `std::vector<FlatData>` holds it. */
  datatype FlatData = FlatData(id: nat, house: Size, number: Size, price: Size, rooms: Size, status: Bytes)

  /** `as<size_t>()` throws on a negative number. */
  predicate Converts(row: FlatRow) {
    0 <= row.house && 0 <= row.number && 0 <= row.price && 0 <= row.rooms
  }

  function ToData(id: nat, row: FlatRow): FlatData
    requires Converts(row)
  {
    FlatData(id, row.house, row.number, row.price, row.rooms, row.status)
  }

  predicate Selected(flats: Flats, house: Size, onlyApproved: bool, id: nat) {
    id in flats && flats[id].house == house && (onlyApproved ==> flats[id].status == APPROVED)
  }

  /** The rows a SELECT returns; `scan` is the order in which the engine visits them. */
  function Select(flats: Flats, house: Size, onlyApproved: bool, scan: seq<nat>): (r: seq<nat>)
    ensures forall i :: 0 <= i < |r| ==> Selected(flats, house, onlyApproved, r[i])
  {
    if scan == [] then []
    else
      var before := Select(flats, house, onlyApproved, scan[..|scan| - 1]);
      if Selected(flats, house, onlyApproved, scan[|scan| - 1]) then before + [scan[|scan| - 1]] else before
  }

  predicate AllConvert(flats: Flats, ids: seq<nat>) {
    forall i :: 0 <= i < |ids| ==> ids[i] in flats && Converts(flats[ids[i]])
  }

  function Convert(flats: Flats, ids: seq<nat>): (r: seq<FlatData>)
    requires AllConvert(flats, ids)
    ensures |r| == |ids| && forall i :: 0 <= i < |ids| ==> r[i] == ToData(ids[i], flats[ids[i]])
  {
    seq(|ids|, i requires 0 <= i < |ids| => ToData(ids[i], flats[ids[i]]))
  }

  const USER: Bytes := "user"
  const MODERATOR: Bytes := "moderator"

  /** `getFlatForHouseID`. */
  function Listing(flats: Flats, house: Size, role: Bytes, scan: seq<nat>, up: bool): seq<FlatData> {
    if !up || (role != USER && role != MODERATOR) then []
    else
      var ids := Select(flats, house, role == USER, scan);
      if AllConvert(flats, ids) then Convert(flats, ids) else []
  }

  // ---- Users ----

  ghost predicate UniqueLogins(t: Tables) {
    && (forall i, j :: 0 <= i < j < |t.users| ==>
          t.users[i].login != t.users[j].login && t.users[i].id != t.users[j].id)
    && (forall i :: 0 <= i < |t.users| ==> t.users[i].id < t.nextUser)
  }

  /** Registering a login that exists changes no row; a new one is appended and found again with its role trimmed. */
  lemma SaveThenFind(t: Tables, login: Bytes, password: Bytes, role: Bytes)
    requires UniqueLogins(t)
    ensures var t' := SaveUser(t, login, password, role, true);
            && UniqueLogins(t') && t'.users[..|t.users|] == t.users
            && (if FindUserByLogin(t, login, true).Some?
                then t'.users == t.users && FindUserByLogin(t', login, true) == FindUserByLogin(t, login, true)
                else FindUserByLogin(t', login, true) == Some(UserData(t.nextUser, login, password, Chomp(role))))
  {
    hide Chomp, LoginAt;
    if LoginAt(t.users, login) == None {
      LoginAtAppended(t.users, UserRow(t.nextUser, login, password, role), login);
      LoginAtNowhere(t.users, login);
    }
  }

  lemma LoginAtAppended(users: seq<UserRow>, row: UserRow, login: Bytes)
    ensures LoginAt(users + [row], login) == if row.login == login then Some(|users|) else LoginAt(users, login)
    ensures (users + [row])[..|users|] == users
  {
    assert (users + [row])[..|users|] == users;
  }

  lemma LoginAtNowhere(users: seq<UserRow>, login: Bytes)
    requires LoginAt(users, login) == None
    ensures forall i :: 0 <= i < |users| ==> users[i].login != login
  {
  }

  // ---- Listings ----

  /** The engine visits every row once. */
  ghost predicate IsScan(scan: seq<nat>, flats: Flats) {
    && (forall id :: id in flats <==> id in scan)
    && (forall i, j :: 0 <= i < j < |scan| ==> scan[i] != scan[j])
  }

  lemma {:induction false} SelectHas(flats: Flats, house: Size, onlyApproved: bool, scan: seq<nat>, id: nat)
    ensures id in Select(flats, house, onlyApproved, scan) <==> id in scan && Selected(flats, house, onlyApproved, id)
  {
    if scan != [] {
      SelectHas(flats, house, onlyApproved, scan[..|scan| - 1], id);
      assert scan == scan[..|scan| - 1] + [scan[|scan| - 1]];
    }
  }

  lemma {:induction false} SelectOnce(flats: Flats, house: Size, onlyApproved: bool, scan: seq<nat>)
    requires forall i, j :: 0 <= i < j < |scan| ==> scan[i] != scan[j]
    ensures var ids := Select(flats, house, onlyApproved, scan);
            forall i, j :: 0 <= i < j < |ids| ==> ids[i] != ids[j]
  {
    if scan != [] {
      var before, last := scan[..|scan| - 1], scan[|scan| - 1];
      SelectOnce(flats, house, onlyApproved, before);
      SelectHas(flats, house, onlyApproved, before, last);
      assert last !in before;
    }
  }

  /** In `scan`, `first` only occurs before `second`. */
  ghost predicate IsBefore(scan: seq<nat>, first: nat, second: nat) {
    forall a, b :: 0 <= a < |scan| && 0 <= b < |scan| && scan[a] == first && scan[b] == second ==> a < b
  }

  lemma {:induction false} SelectOrdered(flats: Flats, house: Size, onlyApproved: bool, scan: seq<nat>)
    requires forall i, j :: 0 <= i < j < |scan| ==> scan[i] != scan[j]
    ensures var ids := Select(flats, house, onlyApproved, scan);
            forall i, j :: 0 <= i < j < |ids| ==> IsBefore(scan, ids[i], ids[j])
  {
    if scan != [] {
      var before := scan[..|scan| - 1];
      var ids, earlier := Select(flats, house, onlyApproved, scan), Select(flats, house, onlyApproved, before);
      SelectOrdered(flats, house, onlyApproved, before);
      forall i, j | 0 <= i < j < |ids|
        ensures IsBefore(scan, ids[i], ids[j])
      {
        SelectHas(flats, house, onlyApproved, before, ids[i]);
        if j < |earlier| {
          SelectHas(flats, house, onlyApproved, before, ids[j]);
          assert IsBefore(before, ids[i], ids[j]);
        }
        BeforeInLonger(scan, ids[i], ids[j]);
      }
    }
  }

  lemma BeforeInLonger(scan: seq<nat>, first: nat, second: nat)
    requires scan != [] && forall i, j :: 0 <= i < j < |scan| ==> scan[i] != scan[j]
    requires first in scan[..|scan| - 1]
    requires second == scan[|scan| - 1]
             || (second in scan[..|scan| - 1] && IsBefore(scan[..|scan| - 1], first, second))
    ensures IsBefore(scan, first, second)
  {
    var before := scan[..|scan| - 1];
    var k :| 0 <= k < |before| && before[k] == first;
    forall a, b | 0 <= a < |scan| && 0 <= b < |scan| && scan[a] == first && scan[b] == second
      ensures a < b
    {
      assert scan[k] == first;
      if b < |before| { assert before[a] == first && before[b] == second; }
    }
  }

  /** Some row of the house that would be shown has a negative column, on which the conversion throws. */
  ghost predicate HasNegative(flats: Flats, house: Size, onlyApproved: bool) {
    exists id :: id in flats && flats[id].house == house && (onlyApproved ==> flats[id].status == "approved")
                 && (flats[id].house < 0 || flats[id].number < 0 || flats[id].price < 0 || flats[id].rooms < 0)
  }

  lemma ConvertsExactly(flats: Flats, house: Size, onlyApproved: bool, scan: seq<nat>)
    requires IsScan(scan, flats)
    ensures AllConvert(flats, Select(flats, house, onlyApproved, scan)) <==> !HasNegative(flats, house, onlyApproved)
  {
    var ids := Select(flats, house, onlyApproved, scan);
    forall id: nat
      ensures id in ids <==> id in scan && Selected(flats, house, onlyApproved, id)
    {
      SelectHas(flats, house, onlyApproved, scan, id);
    }
    assert forall i :: 0 <= i < |ids| ==> ids[i] in ids;
  }

  /** What a listing is. A role other than user and moderator, a negative column in a row to be shown, or a failing call
      gives nothing. Otherwise each row of the house, for users only if approved, is shown once, with its own number,
      price, rooms and status, in the order in which the engine visits the rows; and nothing else is shown. */
  lemma ListingShows(flats: Flats, house: Size, role: Bytes, scan: seq<nat>, d: FlatData)
    requires IsScan(scan, flats)
    ensures Listing(flats, house, role, scan, false) == []
    ensures role != "user" && role != "moderator" ==> Listing(flats, house, role, scan, true) == []
    ensures HasNegative(flats, house, role == "user") ==> Listing(flats, house, role, scan, true) == []
    ensures (role == "user" || role == "moderator") && !HasNegative(flats, house, role == "user") ==>
              (d in Listing(flats, house, role, scan, true) <==>
               && d.id in flats && flats[d.id].house == house && (role == "user" ==> flats[d.id].status == "approved")
               && d.house == house && d.number == flats[d.id].number && d.price == flats[d.id].price
               && d.rooms == flats[d.id].rooms && d.status == flats[d.id].status)
    ensures var list := Listing(flats, house, role, scan, true);
            forall i, j :: 0 <= i < j < |list| ==> list[i].id != list[j].id && IsBefore(scan, list[i].id, list[j].id)
  {
    var ids := Select(flats, house, role == USER, scan);
    var list := Listing(flats, house, role, scan, true);
    ConvertsExactly(flats, house, role == USER, scan);
    SelectHas(flats, house, role == USER, scan, d.id);
    SelectOnce(flats, house, role == USER, scan);
    SelectOrdered(flats, house, role == USER, scan);
    if d in list {
      var i :| 0 <= i < |list| && list[i] == d;
      assert ids[i] == d.id;
    }
    if d.id in ids && list != [] && Converts(flats[d.id]) && d == ToData(d.id, flats[d.id]) {
      var i :| 0 <= i < |ids| && ids[i] == d.id;
      assert list[i] == d;
    }
    assert forall i :: 0 <= i < |list| ==> list[i].id == ids[i];
  }

  // ---- Views ----

  /** Entries of a listing that are approved, in order. */
  function OnlyApproved(list: seq<FlatData>): seq<FlatData> {
    if list == [] then []
    else
      var before := OnlyApproved(list[..|list| - 1]);
      if list[|list| - 1].status == APPROVED then before + [list[|list| - 1]] else before
  }

  lemma {:induction false} FilterSelected(flats: Flats, house: Size, scan: seq<nat>)
    requires AllConvert(flats, Select(flats, house, false, scan))
    ensures AllConvert(flats, Select(flats, house, true, scan))
    ensures Convert(flats, Select(flats, house, true, scan)) ==
            OnlyApproved(Convert(flats, Select(flats, house, false, scan)))
  {
    if scan != [] {
      var before, last := scan[..|scan| - 1], scan[|scan| - 1];
      var all := Select(flats, house, false, scan);
      if Selected(flats, house, false, last) {
        assert all[..|all| - 1] == Select(flats, house, false, before);
        FilterSelected(flats, house, before);
        var list := Convert(flats, all);
        assert all[|all| - 1] == last && Converts(flats[last]);
        assert list[..|list| - 1] == Convert(flats, Select(flats, house, false, before));
      } else {
        FilterSelected(flats, house, before);
      }
    }
  }

  lemma ScannedViews(flats: Flats, house: Size, scan: seq<nat>)
    ensures var approved := Select(flats, house, true, scan);
            Listing(flats, house, USER, scan, true) == OnlyApproved(Listing(flats, house, MODERATOR, scan, true)) <==>
            (AllConvert(flats, Select(flats, house, false, scan)) || approved == [] || !AllConvert(flats, approved))
  {
    if AllConvert(flats, Select(flats, house, false, scan)) {
      FilterSelected(flats, house, scan);
    }
  }

  ghost predicate HasApproved(flats: Flats, house: Size) {
    exists id :: id in flats && flats[id].house == house && flats[id].status == "approved"
  }

  /** The user listing of a house is the moderator listing filtered to approved, just when no column of the house is
      negative, or one of an approved flat is as well, or no flat of the house is approved. */
  lemma UserViewIsFilteredView(flats: Flats, house: Size, scan: seq<nat>)
    requires IsScan(scan, flats)
    ensures Listing(flats, house, "user", scan, true) ==
            OnlyApproved(Listing(flats, house, "moderator", scan, true)) <==>
            !HasNegative(flats, house, false) || HasNegative(flats, house, true) || !HasApproved(flats, house)
  {
    hide Listing, HasNegative;
    ScannedViews(flats, house, scan);
    ConvertsExactly(flats, house, false, scan);
    ConvertsExactly(flats, house, true, scan);
    ApprovedSelected(flats, house, scan);
  }

  lemma ApprovedSelected(flats: Flats, house: Size, scan: seq<nat>)
    requires IsScan(scan, flats)
    ensures Select(flats, house, true, scan) != [] <==> HasApproved(flats, house)
  {
    var approved := Select(flats, house, true, scan);
    forall id: nat
      ensures id in approved <==> id in flats && flats[id].house == house && flats[id].status == "approved"
    {
      SelectHas(flats, house, true, scan, id);
    }
    assert approved != [] ==> approved[0] in approved;
  }

  /** A house where the two views disagree: an undecided flat with a negative price empties only the moderator's. */
  lemma ViewsDisagree()
    ensures var flats := map[1 := FlatRow(1, 10, 5, 2, APPROVED), 2 := FlatRow(1, 11, -5, 2, CREATED)];
            && Listing(flats, 1, USER, [1, 2], true) == [FlatData(1, 1, 10, 5, 2, APPROVED)]
            && Listing(flats, 1, MODERATOR, [1, 2], true) == []
  {
    hide Select;
    var flats := map[1 := FlatRow(1, 10, 5, 2, APPROVED), 2 := FlatRow(1, 11, -5, 2, CREATED)];
    SelectTwo(flats, 1, true, 1, 2);
    SelectTwo(flats, 1, false, 1, 2);
    assert Select(flats, 1, true, [1, 2]) == [1];
    assert Select(flats, 1, false, [1, 2])[1] == 2;
  }

  lemma SelectTwo(flats: Flats, house: Size, onlyApproved: bool, a: nat, b: nat)
    ensures Select(flats, house, onlyApproved, [a, b]) ==
            (if Selected(flats, house, onlyApproved, a) then [a] else [])
            + (if Selected(flats, house, onlyApproved, b) then [b] else [])
  {
    assert [a, b][..1] == [a] && [a][..0] == [];
    assert Select(flats, house, onlyApproved, []) == [];
  }
}
