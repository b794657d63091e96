/** The PostgreSQL database as an object, with the repository methods that read and update it. */
module Database {
  import opened Strings
  import opened Transactions
  import Tables

  /** The database that the repositories share. */
  class Postgres {
    var users: seq<Tables.UserRow>
    var nextUser: nat
    var houses: set<nat>
    var nextHouse: nat
    var flats: Flats
    var nextFlat: nat

    constructor (t: Tables.Tables)
      ensures View() == t
    {
      users, nextUser, houses := t.users, t.nextUser, t.houses;
      nextHouse, flats, nextFlat := t.nextHouse, t.flats, t.nextFlat;
    }

    function View(): Tables.Tables
      reads this
    {
      Tables.Tables(users, nextUser, houses, nextHouse, flats, nextFlat)
    }

    method SaveUser(login: Bytes, password: Bytes, role: Bytes, up: bool)
      modifies this
      ensures View() == Tables.SaveUser(old(View()), login, password, role, up)
    {
      if up {
        var id := nextUser;
        nextUser := nextUser + 1;
        if Tables.LoginAt(users, login) == None {
          users := users + [Tables.UserRow(id, login, password, role)];
        }
      }
    }

    method FindUserByLogin(login: Bytes, up: bool) returns (found: Option<Tables.UserData>)
      ensures found == Tables.FindUserByLogin(View(), login, up)
    {
      if !up {
        return None;
      }
      var at := Tables.LoginAt(users, login);
      if at == None {
        return None;
      }
      var row := users[at.value];
      var role := row.role;
      if role != [] && role[|role| - 1] == '\n' {
        role := role[..|role| - 1];
      }
      if role != [] && role[|role| - 1] == '\r' {
        role := role[..|role| - 1];
      }
      return Some(Tables.UserData(row.id, row.login, row.password, role));
    }

    method SaveHouse(up: bool)
      modifies this
      ensures View() == Tables.SaveHouse(old(View()), up)
    {
      if up {
        houses := houses + {nextHouse};
        nextHouse := nextHouse + 1;
      }
    }

    method SaveFlat(house: Int32, number: Int32, rooms: Int32, price: Int32, up: bool)
      modifies this
      ensures View() == Tables.SaveFlat(old(View()), house, number, rooms, price, up)
    {
      if up {
        var id := nextFlat;
        nextFlat := nextFlat + 1;
        if house in houses {
          flats := flats[id := FlatRow(house, number, price, rooms, CREATED)];
        }
      }
    }

    method TakeFlat(flat: Size, up: bool) returns (ok: bool)
      modifies this
      ensures (ok, View()) == Tables.Update(old(View()), Take(flat), up)
    {
      ok := up && flat in flats && flats[flat].status == CREATED;
      if ok {
        flats := flats[flat := flats[flat].(status := ON_MODERATION)];
      }
    }

    method UpdateFlatStatus(flat: Size, status: Bytes, up: bool) returns (ok: bool)
      modifies this
      ensures (ok, View()) == Tables.Update(old(View()), Decide(flat, status), up)
    {
      ok := up && flat in flats && flats[flat].status == ON_MODERATION;
      if ok {
        flats := flats[flat := flats[flat].(status := status)];
      }
    }

    method GetFlatForHouseID(house: Size, role: Bytes, scan: seq<nat>, up: bool) returns (ans: seq<Tables.FlatData>)
      ensures ans == Tables.Listing(flats, house, role, scan, up)
    {
      ans := [];
      if !up || (role != Tables.USER && role != Tables.MODERATOR) {
        return;
      }
      var rows := Tables.Select(flats, house, role == Tables.USER, scan);
      for i := 0 to |rows|
        invariant Tables.AllConvert(flats, rows[..i]) && ans == Tables.Convert(flats, rows[..i])
      {
        if !Tables.Converts(flats[rows[i]]) {
          return [];
        }
        assert rows[..i + 1] == rows[..i] + [rows[i]];
        ans := ans + [Tables.ToData(rows[i], flats[rows[i]])];
      }
      assert rows[..|rows|] == rows;
    }
  }
}
