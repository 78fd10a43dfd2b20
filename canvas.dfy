/** The shared canvas: its grid, its access keys, its users and the per-user cooldown. */
module Canvas {
  import opened Grid
  import opened Delta

  const NanosPerSecond := 1_000_000_000

  /** The cooldown a canvas gets when none is given: ten seconds. */
  const DefaultTimeout := 10_000_000_000

  /** One user's state: the copy of the grid it last received, and the time of its last
      accepted write (0 until it has written). */
  datatype UserInfo = UserInfo(lastSeen: Pixels, lastEdited: int)

  datatype Error = InvalidKey | UnknownUser | OutOfBounds | RateLimited(waitS: nat)

  datatype Result<T> = Ok(value: T) | Err(error: Error)

  /** What an accepted write echoes back. */
  datatype Written = Written(x: int, y: int, color: Color)

  /** What a new user receives: its id and the whole grid. */
  datatype Session = Session(id: string, nx: nat, ny: nat, data: Pixels)

  /** What a poll returns: the cells changed since the user's previous poll. */
  datatype Update = Update(id: string, nx: nat, ny: nat, deltas: seq<Change>)

  /** Whole seconds still to wait when `elapsed` nanoseconds of a `timeout` have passed:
      the remaining time truncated, never rounded up. */
  function WaitSeconds(timeout: int, elapsed: int): (w: nat)
    requires elapsed < timeout
    ensures w * NanosPerSecond <= timeout - elapsed < (w + 1) * NanosPerSecond
  {
    (timeout - elapsed) / NanosPerSecond
  }

  class Canvas {
    const nx: nat
    const ny: nat
    const timeout: int
    var grid: Pixels
    var keys: set<string>
    var users: map<string, UserInfo>

    /** The grid and every user's copy of it have the canvas's dimensions. */
    ghost predicate Valid()
      reads this
    {
      IsGrid(grid, nx, ny) && forall id :: id in users ==> IsGrid(users[id].lastSeen, nx, ny)
    }

    /** A blank `nx` by `ny` canvas with no keys and no users; the cooldown defaults to
        ten seconds. */
    constructor(nx: nat, ny: nat, timeout: int := DefaultTimeout)
      ensures Valid()
      ensures this.nx == nx && this.ny == ny && this.timeout == timeout
      ensures grid == Blank(nx, ny)
      ensures keys == {} && users == map[]
    {
      this.nx := nx;
      this.ny := ny;
      this.timeout := timeout;
      grid := Blank(nx, ny);
      keys := {};
      users := map[];
    }

    /** Issues `key` (a fresh random token in the source) and keeps it valid. */
    method CreateNewKey(key: string) returns (k: string)
      modifies this`keys
      ensures k == key && IsValidKey(k)
      ensures keys == old(keys) + {key}
    {
      keys := keys + {key};
      k := key;
    }

    predicate IsValidKey(key: string)
      reads this
    {
      key in keys
    }

    /** Registers user `id` (a fresh random token in the source) with a copy of the
        current grid and no write yet. An existing entry under the same id is replaced. */
    method CreateNewUserId(id: string) returns (u: string)
      requires Valid()
      modifies this`users
      ensures Valid()
      ensures u == id && IsValidUserId(u)
      ensures users == old(users)[id := UserInfo(grid, 0)]
    {
      users := users[id := UserInfo(grid, 0)];
      u := id;
    }

    predicate IsValidUserId(id: string)
      reads this
    {
      id in users
    }

    /** The rate-limited write of one cell; the caller has checked the coordinates. */
    method SetPixel(x: int, y: int, color: Color, id: string, now: int) returns (res: Result<Written>)
      requires Valid()
      requires InBounds(x, y, nx, ny)
      modifies this`grid, this`users
      ensures Valid()
      ensures id !in old(users) ==>
        res == Err(UnknownUser) && grid == old(grid) && users == old(users)
      ensures id in old(users) && now - old(users[id].lastEdited) < timeout ==>
        res == Err(RateLimited(WaitSeconds(timeout, now - old(users[id].lastEdited))))
        && grid == old(grid) && users == old(users)
      ensures id in old(users) && now - old(users[id].lastEdited) >= timeout ==>
        res == Ok(Written(x, y, color))
        && grid == Paint(old(grid), nx, ny, x, y, color)
        && users == old(users)[id := old(users[id]).(lastEdited := now)]
      ensures timeout >= 0 && id in old(users) ==> users[id].lastEdited >= old(users[id].lastEdited)
    {
      if !IsValidUserId(id) {
        return Err(UnknownUser);
      }
      var info := users[id];
      if now - info.lastEdited < timeout {
        return Err(RateLimited(WaitSeconds(timeout, now - info.lastEdited)));
      }
      grid := Paint(grid, nx, ny, x, y, color);
      users := users[id := info.(lastEdited := now)];
      res := Ok(Written(x, y, color));
    }

    /** The registration handler: a valid key (which stays valid) buys a new user. */
    method Init(key: string, id: string) returns (res: Result<Session>)
      requires Valid()
      modifies this`users
      ensures Valid()
      ensures keys == old(keys) && grid == old(grid)
      ensures key !in keys ==> res == Err(InvalidKey) && users == old(users)
      ensures key in keys ==>
        res == Ok(Session(id, nx, ny, grid)) && users == old(users)[id := UserInfo(grid, 0)]
    {
      if !IsValidKey(key) {
        return Err(InvalidKey);
      }
      var u := CreateNewUserId(id);
      res := Ok(Session(u, nx, ny, grid));
    }

    /** The write handler: key, user and coordinates are checked, in that order, before
        the rate-limited write. */
    method PutPixel(key: string, id: string, x: int, y: int, color: Color, now: int)
      returns (res: Result<Written>)
      requires Valid()
      modifies this`grid, this`users
      ensures Valid()
      ensures key !in keys ==> res == Err(InvalidKey) && grid == old(grid) && users == old(users)
      ensures key in keys && id !in old(users) ==>
        res == Err(UnknownUser) && grid == old(grid) && users == old(users)
      ensures key in keys && id in old(users) && !InBounds(x, y, nx, ny) ==>
        res == Err(OutOfBounds) && grid == old(grid) && users == old(users)
      ensures key in keys && id in old(users) && InBounds(x, y, nx, ny)
              && now - old(users[id].lastEdited) < timeout ==>
        res == Err(RateLimited(WaitSeconds(timeout, now - old(users[id].lastEdited))))
        && grid == old(grid) && users == old(users)
      ensures key in keys && id in old(users) && InBounds(x, y, nx, ny)
              && now - old(users[id].lastEdited) >= timeout ==>
        res == Ok(Written(x, y, color))
        && grid == Paint(old(grid), nx, ny, x, y, color)
        && users == old(users)[id := old(users[id]).(lastEdited := now)]
    {
      if !IsValidKey(key) {
        return Err(InvalidKey);
      }
      if !IsValidUserId(id) {
        return Err(UnknownUser);
      }
      if !InBounds(x, y, nx, ny) {
        return Err(OutOfBounds);
      }
      res := SetPixel(x, y, color, id, now);
    }

    /** The poll handler: reports the cells that differ from the user's copy, then
        replaces that copy (and only that one) by the current grid. */
    method Deltas(key: string, id: string) returns (res: Result<Update>)
      requires Valid()
      modifies this`users
      ensures Valid()
      ensures key !in keys ==> res == Err(InvalidKey) && users == old(users)
      ensures key in keys && id !in old(users) ==> res == Err(UnknownUser) && users == old(users)
      ensures key in keys && id in old(users) ==>
        res == Ok(Update(id, nx, ny, Changes(grid, old(users[id].lastSeen), nx, ny)))
        && users == old(users)[id := old(users[id]).(lastSeen := grid)]
    {
      if !IsValidKey(key) {
        return Err(InvalidKey);
      }
      if !IsValidUserId(id) {
        return Err(UnknownUser);
      }
      var info := users[id];
      var d := Scan(grid, info.lastSeen, nx, ny);
      users := users[id := info.(lastSeen := grid)];
      res := Ok(Update(id, nx, ny, d));
    }
  }

  /** The single-user walk-through with the default cooldown, on any canvas that holds the
      cell (3, 4), such as the 10 by 10 one: register, write, write again at once, poll twice. */
  method Walkthrough(nx: nat, ny: nat, key: string, id: string, t0: int)
    returns (first: Result<Written>, second: Result<Written>, poll1: Result<Update>, poll2: Result<Update>)
    requires nx > 3 && ny > 4
    requires t0 >= DefaultTimeout
    ensures first == Ok(Written(3, 4, Color(255, 0, 0)))
    ensures second == Err(RateLimited(10))
    ensures poll1 == Ok(Update(id, nx, ny, [Change(3, 4, Color(255, 0, 0))]))
    ensures poll2 == Ok(Update(id, nx, ny, []))
  {
    var red, blue := Color(255, 0, 0), Color(0, 0, 255);
    var canvas := new Canvas(nx, ny);
    var k := canvas.CreateNewKey(key);
    var session := canvas.Init(k, id);
    ghost var blank := canvas.grid;
    first := canvas.PutPixel(k, id, 3, 4, red, t0);
    second := canvas.PutPixel(k, id, 1, 1, blue, t0);
    ChangesAfterPaint(blank, nx, ny, 3, 4, red);
    poll1 := canvas.Deltas(k, id);
    ChangesOfSynced(canvas.grid, nx, ny);
    poll2 := canvas.Deltas(k, id);
  }

  /** The cooldown boundary for one user: a first write is accepted once `timeout` has
      passed since time 0; a write one nanosecond before the cooldown ends is refused
      with a wait of 0 seconds (the wait is truncated); a write exactly at its end is
      accepted. */
  method CooldownBoundary(key: string, id: string, timeout: int, t0: int)
    returns (early: Result<Written>, first: Result<Written>, tooSoon: Result<Written>, onTime: Result<Written>)
    requires 1 <= timeout
    requires t0 >= timeout
    ensures early == Err(RateLimited(0))
    ensures first == Ok(Written(0, 0, Black))
    ensures tooSoon == Err(RateLimited(0))
    ensures onTime == Ok(Written(0, 0, Black))
  {
    var canvas := new Canvas(1, 1, timeout);
    var k := canvas.CreateNewKey(key);
    var session := canvas.Init(k, id);
    early := canvas.PutPixel(k, id, 0, 0, Black, timeout - 1);
    first := canvas.PutPixel(k, id, 0, 0, Black, t0);
    tooSoon := canvas.PutPixel(k, id, 0, 0, Black, t0 + timeout - 1);
    onTime := canvas.PutPixel(k, id, 0, 0, Black, t0 + timeout);
  }
}
