/**
 * The scrollable user list as values: the pool of list cells as a sequence of active flags
 * (first-fit reuse, append on a miss, never shrinking), and the AllUsers dictionary filled
 * from a page of results keyed by email, where a repeated email throws.
 */
module UserPoolSpec {
  import opened Collections

  /** The first inactive cell of the pool, or |pool| when every cell is active. */
  function FirstInactive(pool: seq<bool>): (r: nat)
    ensures r <= |pool|
    ensures r < |pool| ==> !pool[r]
    ensures forall j :: 0 <= j < r ==> pool[j]
  {
    if pool == [] then 0
    else if !pool[0] then 0
    else 1 + FirstInactive(pool[1..])
  }

  /** The number of inactive cells. */
  function CountInactive(pool: seq<bool>): nat
  {
    if pool == [] then 0
    else CountInactive(pool[..|pool| - 1]) + (if pool[|pool| - 1] then 0 else 1)
  }

  /** A pool of n cells, none of them active. */
  function AllInactive(n: nat): (r: seq<bool>)
    ensures |r| == n && forall j :: 0 <= j < n ==> !r[j]
  {
    seq(n, _ => false)
  }

  /** The pool after handing out a cell, and the cell handed out. */
  datatype Acquired = Acquired(pool: seq<bool>, cell: nat)

  /**
   * GetUserObject: the first inactive cell is activated and handed out; when every cell is
   * active, a new active cell is appended and handed out.
   */
  function Acquire(pool: seq<bool>): (r: Acquired)
    ensures r.cell <= |pool| && |r.pool| == |pool| + (if r.cell == |pool| then 1 else 0)
    ensures r.pool[r.cell]
    ensures r.cell < |pool| ==> !pool[r.cell]
    ensures forall j :: 0 <= j < r.cell ==> pool[j]
    ensures r.cell == |pool| ==> forall j :: 0 <= j < |pool| ==> pool[j]
    ensures forall j :: 0 <= j < |pool| && j != r.cell ==> r.pool[j] == pool[j]
  {
    var i := FirstInactive(pool);
    if i < |pool| then Acquired(pool[i := true], i) else Acquired(pool + [true], |pool|)
  }

  /** The pool after handing out n cells one after another, and the cells in hand-out order. */
  datatype AcquiredMany = AcquiredMany(pool: seq<bool>, cells: seq<nat>)

  function AcquireMany(pool: seq<bool>, n: nat): (r: AcquiredMany)
    ensures |r.cells| == n && |r.pool| >= |pool|
  {
    if n == 0 then AcquiredMany(pool, [])
    else
      var a := AcquireMany(pool, n - 1);
      var b := Acquire(a.pool);
      AcquiredMany(b.pool, a.cells + [b.cell])
  }

  /** Handing out one more cell continues from where n hand-outs left the pool. */
  lemma AcquireManyNext(pool: seq<bool>, n: nat)
    ensures AcquireMany(pool, n + 1)
      == AcquiredMany(Acquire(AcquireMany(pool, n).pool).pool, AcquireMany(pool, n).cells + [Acquire(AcquireMany(pool, n).pool).cell])
  {
  }

  /**
   * The pool's bookkeeping: every cell of the active list is in the pool, no cell is listed
   * twice, and a cell is active exactly when it is listed.
   */
  ghost predicate PoolValid(pool: seq<bool>, cells: seq<nat>)
  {
    && (forall k :: 0 <= k < |cells| ==> cells[k] < |pool|)
    && Distinct(cells)
    && (forall j :: 0 <= j < |pool| ==> (pool[j] <==> j in cells))
  }

  lemma {:induction false} CountInactiveZero(pool: seq<bool>)
    ensures CountInactive(pool) == 0 <==> forall j :: 0 <= j < |pool| ==> pool[j]
  {
    if pool != [] {
      var front := pool[..|pool| - 1];
      CountInactiveZero(front);
      assert forall j :: 0 <= j < |front| ==> front[j] == pool[j];
    }
  }

  lemma {:induction false} CountInactiveActivate(pool: seq<bool>, i: nat)
    requires i < |pool| && !pool[i]
    ensures CountInactive(pool[i := true]) == CountInactive(pool) - 1
  {
    var front := pool[..|pool| - 1];
    if i < |pool| - 1 {
      assert pool[i := true][..|pool| - 1] == front[i := true];
      CountInactiveActivate(front, i);
    } else {
      assert pool[i := true][..|pool| - 1] == front;
    }
  }

  /** Handing out a cell uses up one inactive cell, or none when there was none to use. */
  lemma AcquireCount(pool: seq<bool>)
    ensures CountInactive(Acquire(pool).pool) == (if CountInactive(pool) == 0 then 0 else CountInactive(pool) - 1)
  {
    CountInactiveZero(pool);
    var i := FirstInactive(pool);
    if i < |pool| {
      CountInactiveActivate(pool, i);
    } else {
      assert (pool + [true])[..|pool|] == pool;
    }
  }

  /** Handing out n cells grows the pool only by the shortfall of inactive cells. */
  lemma {:induction false} AcquireManySize(pool: seq<bool>, n: nat)
    ensures |AcquireMany(pool, n).pool|
      == |pool| + (if n <= CountInactive(pool) then 0 else n - CountInactive(pool))
    ensures CountInactive(AcquireMany(pool, n).pool)
      == (if n <= CountInactive(pool) then CountInactive(pool) - n else 0)
  {
    if n > 0 {
      AcquireManySize(pool, n - 1);
      var a := AcquireMany(pool, n - 1);
      AcquireCount(a.pool);
      var b := Acquire(a.pool);
      assert AcquireMany(pool, n).pool == b.pool;
      CountInactiveZero(a.pool);
      assert |b.pool| == |a.pool| + (if CountInactive(a.pool) == 0 then 1 else 0);
    }
  }

  /**
   * Handing out n cells: the cells handed out are distinct, each was inactive or new and is
   * now active, cells that were active stay active, and nothing else becomes active.
   */
  lemma {:induction false} AcquireManyCells(pool: seq<bool>, n: nat)
    ensures forall j :: 0 <= j < |pool| && pool[j] ==> AcquireMany(pool, n).pool[j]
    ensures forall k :: 0 <= k < n ==> Handed(pool, AcquireMany(pool, n), k)
    ensures Distinct(AcquireMany(pool, n).cells)
    ensures forall j :: 0 <= j < |AcquireMany(pool, n).pool| && AcquireMany(pool, n).pool[j] ==>
      (j < |pool| && pool[j]) || j in AcquireMany(pool, n).cells
  {
    if n > 0 {
      AcquireManyCells(pool, n - 1);
      var a := AcquireMany(pool, n - 1);
      var b := Acquire(a.pool);
      var r := AcquireMany(pool, n);
      assert r == AcquiredMany(b.pool, a.cells + [b.cell]);
      assert forall j :: 0 <= j < |pool| && pool[j] ==> r.pool[j] by {
        forall j | 0 <= j < |pool| && pool[j]
          ensures r.pool[j]
        {
          assert a.pool[j];
        }
      }
      // The cell handed out last was inactive in the pool before the burst, or new.
      assert b.cell >= |pool| || !pool[b.cell] by {
        if b.cell < |pool| && pool[b.cell] {
        }
      }
      // It is none of the cells handed out before it: those are active in a.pool.
      assert forall k :: 0 <= k < n - 1 ==> a.cells[k] != b.cell by {
        forall k | 0 <= k < n - 1
          ensures a.cells[k] != b.cell
        {
          assert Handed(pool, a, k);
        }
      }
      forall k | 0 <= k < n
        ensures Handed(pool, r, k)
      {
        if k < n - 1 {
          assert Handed(pool, a, k);
          assert r.cells[k] == a.cells[k];
        }
      }
      forall j | 0 <= j < |r.pool| && r.pool[j] && !(j < |pool| && pool[j])
        ensures j in r.cells
      {
        if j != b.cell {
          assert a.pool[j];
          var k :| 0 <= k < |a.cells| && a.cells[k] == j;
          assert r.cells[k] == j;
        }
      }
    }
  }

  /** The k-th cell handed out is in the pool, active, and was inactive before or is new. */
  ghost predicate Handed(pool: seq<bool>, r: AcquiredMany, k: nat)
    requires k < |r.cells|
  {
    && r.cells[k] < |r.pool|
    && r.pool[r.cells[k]]
    && (r.cells[k] >= |pool| || !pool[r.cells[k]])
  }

  /** Handing out cells keeps the bookkeeping when the handed-out cells join the active list. */
  lemma AcquireManyKeepsValid(pool: seq<bool>, cells: seq<nat>, n: nat)
    requires PoolValid(pool, cells)
    ensures PoolValid(AcquireMany(pool, n).pool, cells + AcquireMany(pool, n).cells)
  {
    AcquireManyCells(pool, n);
    var r := AcquireMany(pool, n);
    var all := cells + r.cells;
    forall k | 0 <= k < |all|
      ensures all[k] < |r.pool|
    {
      if k >= |cells| {
        assert Handed(pool, r, k - |cells|);
      }
    }
    forall i, j | 0 <= i < j < |all|
      ensures all[i] != all[j]
    {
      if i < |cells| && j >= |cells| {
        assert pool[cells[i]];
        assert all[j] == r.cells[j - |cells|];
        assert Handed(pool, r, j - |cells|);
      }
    }
    forall j | 0 <= j < |r.pool|
      ensures r.pool[j] <==> j in all
    {
      if j in all {
        var k :| 0 <= k < |all| && all[k] == j;
        if k < |cells| {
          assert pool[j];
        } else {
          assert r.cells[k - |cells|] == j;
          assert Handed(pool, r, k - |cells|);
        }
      }
      if r.pool[j] && !(j < |pool| && pool[j]) {
        var k :| 0 <= k < |r.cells| && r.cells[k] == j;
        assert all[|cells| + k] == j;
      }
    }
  }

  /** n cells handed out from m clean cells: cells 0 .. n-1 in order, the pool just long enough. */
  ghost predicate Refilled(m: nat, n: nat, r: AcquiredMany)
  {
    && |r.pool| == (if n <= m then m else n)
    && (forall j :: 0 <= j < |r.pool| ==> (r.pool[j] <==> j < n))
    && |r.cells| == n
    && (forall k :: 0 <= k < n ==> r.cells[k] == k)
  }

  /** One more hand-out after a refill of n cells hands out cell n. */
  lemma RefillStep(m: nat, n: nat, a: AcquiredMany)
    requires Refilled(m, n, a)
    ensures Refilled(m, n + 1, AcquiredMany(Acquire(a.pool).pool, a.cells + [Acquire(a.pool).cell]))
  {
    var b := Acquire(a.pool);
    assert b.cell == n by {
      if n < |a.pool| {
        assert !a.pool[n];
      }
    }
  }

  /**
   * After CleanUpScrollWindow has left m inactive cells, showing n users reuses the cells in
   * pool order, 0, 1, 2, ..., and creates new cells only past the end of the pool.
   */
  lemma {:induction false} RefillFromCleanPool(m: nat, n: nat)
    ensures |AcquireMany(AllInactive(m), n).pool| == if n <= m then m else n
    ensures forall j :: 0 <= j < |AcquireMany(AllInactive(m), n).pool| ==>
      (AcquireMany(AllInactive(m), n).pool[j] <==> j < n)
    ensures forall k :: 0 <= k < n ==> AcquireMany(AllInactive(m), n).cells[k] == k
  {
    RefillFromCleanPoolBy(m, n);
  }

  lemma {:induction false} RefillFromCleanPoolBy(m: nat, n: nat)
    ensures Refilled(m, n, AcquireMany(AllInactive(m), n))
  {
    if n > 0 {
      RefillFromCleanPoolBy(m, n - 1);
      AcquireManyNext(AllInactive(m), n - 1);
      RefillStep(m, n - 1, AcquireMany(AllInactive(m), n - 1));
    }
  }

  // ---------------------------------------------------------------------------------------------
  // The AllUsers dictionary

  datatype UserName = UserName(title: string, first: string, last: string)
  datatype BirthDate = BirthDate(date: string, age: int)
  datatype UserPicture = UserPicture(large: string, medium: string, thumbnail: string)

  /** One entry of the page of results the user service returns. */
  datatype FinalUser = FinalUser(name: UserName, dob: BirthDate, picture: UserPicture,
                                 email: string, gender: string, phone: string)

  /** What the list keeps about a user, keyed by email in AllUsers. */
  datatype UserData = UserData(firstName: string, lastName: string, email: string, gender: string,
                               phone: string, age: int, imageUrl: string, thumbnailUrl: string)

  /** The UserData a result becomes: the large picture is the image, the thumbnail the thumbnail. */
  function ToUserData(u: FinalUser): UserData
  {
    UserData(u.name.first, u.name.last, u.email, u.gender, u.phone, u.dob.age, u.picture.large, u.picture.thumbnail)
  }

  /** The dictionary after the insert loop, and how many results were added before it stopped. */
  datatype Inserted = Inserted(users: map<string, UserData>, added: nat)

  /**
   * The insert loop of HandleUserData: Add each result under its email, in order; an Add of an
   * email already present throws, which ends the loop with the earlier entries kept.
   */
  function AddUsers(users: map<string, UserData>, results: seq<FinalUser>): (r: Inserted)
    ensures r.added <= |results|
    decreases |results|
  {
    if results == [] then Inserted(users, 0)
    else if results[0].email in users then Inserted(users, 0)
    else
      var rest := AddUsers(users[results[0].email := ToUserData(results[0])], results[1..]);
      Inserted(rest.users, rest.added + 1)
  }

  /** The emails of a sequence of results. */
  function EmailsOf(results: seq<FinalUser>): (r: set<string>)
    ensures forall i :: 0 <= i < |results| ==> results[i].email in r
    ensures forall e :: e in r ==> exists i :: 0 <= i < |results| && results[i].email == e
  {
    set i | 0 <= i < |results| :: results[i].email
  }

  lemma EmailsOfCons(first: FinalUser, rest: seq<FinalUser>)
    ensures EmailsOf([first] + rest) == {first.email} + EmailsOf(rest)
  {
    var xs := [first] + rest;
    assert xs[0] == first;
    forall e | e in EmailsOf(xs)
      ensures e in {first.email} + EmailsOf(rest)
    {
      var i :| 0 <= i < |xs| && xs[i].email == e;
      if i > 0 {
        assert rest[i - 1] == xs[i];
      }
    }
    forall e | e in EmailsOf(rest)
      ensures e in EmailsOf(xs)
    {
      var i :| 0 <= i < |rest| && rest[i].email == e;
      assert xs[i + 1] == rest[i];
    }
  }

  /** No two results share an email, and none is a key of `users` already. */
  ghost predicate EmailsFresh(users: map<string, UserData>, results: seq<FinalUser>)
  {
    && (forall i, j :: 0 <= i < j < |results| ==> results[i].email != results[j].email)
    && (forall i :: 0 <= i < |results| ==> results[i].email !in users)
  }

  /** A fresh result in front of results fresh after it is added keeps the whole run fresh. */
  lemma FreshCons(users: map<string, UserData>, first: FinalUser, rest: seq<FinalUser>)
    requires first.email !in users
    requires EmailsFresh(users[first.email := ToUserData(first)], rest)
    ensures EmailsFresh(users, [first] + rest)
  {
    var xs := [first] + rest;
    forall i | 0 <= i < |xs|
      ensures xs[i].email !in users
    {
      if i > 0 {
        assert xs[i] == rest[i - 1];
      }
    }
    forall i, j | 0 <= i < j < |xs|
      ensures xs[i].email != xs[j].email
    {
      assert xs[j] == rest[j - 1];
      if i > 0 {
        assert xs[i] == rest[i - 1];
      }
    }
  }

  /**
   * The insert loop adds the longest prefix of the results whose emails are fresh: what it
   * added is fresh, and it stops exactly at the first result whose email is already a key.
   */
  lemma {:induction false} AddUsersStops(users: map<string, UserData>, results: seq<FinalUser>)
    decreases |results|
    ensures EmailsFresh(users, results[..AddUsers(users, results).added])
    ensures AddUsers(users, results).added < |results| ==>
      results[AddUsers(users, results).added].email in users.Keys + EmailsOf(results[..AddUsers(users, results).added])
  {
    if results != [] && results[0].email !in users {
      var first := results[0];
      var users' := users[first.email := ToUserData(first)];
      var rest := results[1..];
      AddUsersStops(users', rest);
      var p := AddUsers(users', rest).added;
      assert AddUsers(users, results).added == p + 1;
      assert results[..p + 1] == [first] + rest[..p];
      FreshCons(users, first, rest[..p]);
      if p + 1 < |results| {
        assert results[p + 1] == rest[p];
        EmailsOfCons(first, rest[..p]);
      }
    } else {
      assert results[..0] == [];
    }
  }

  /** The keys after the insert loop: the earlier keys and the emails of the users added. */
  lemma {:induction false} AddUsersKeys(users: map<string, UserData>, results: seq<FinalUser>)
    decreases |results|
    ensures AddUsers(users, results).users.Keys == users.Keys + EmailsOf(results[..AddUsers(users, results).added])
  {
    if results != [] && results[0].email !in users {
      var first := results[0];
      var rest := results[1..];
      var users' := users[first.email := ToUserData(first)];
      AddUsersKeys(users', rest);
      var p := AddUsers(users', rest).added;
      assert AddUsers(users, results).added == p + 1;
      assert results[..p + 1] == [first] + rest[..p];
      EmailsOfCons(first, rest[..p]);
      calc {
        AddUsers(users, results).users.Keys;
        AddUsers(users', rest).users.Keys;
        users'.Keys + EmailsOf(rest[..p]);
        users.Keys + ({first.email} + EmailsOf(rest[..p]));
        users.Keys + EmailsOf([first] + rest[..p]);
        users.Keys + EmailsOf(results[..p + 1]);
      }
    } else {
      assert results[..0] == [];
    }
  }

  /**
   * The entries after the insert loop: the earlier entries stay as they were, and every added
   * user is stored under its email.
   */
  lemma {:induction false} AddUsersValues(users: map<string, UserData>, results: seq<FinalUser>)
    decreases |results|
    ensures Retains(users, AddUsers(users, results).users)
    ensures forall i :: 0 <= i < AddUsers(users, results).added ==>
      && results[i].email in AddUsers(users, results).users
      && AddUsers(users, results).users[results[i].email] == ToUserData(results[i])
  {
    if results != [] && results[0].email !in users {
      var first := results[0];
      var rest := results[1..];
      var users' := users[first.email := ToUserData(first)];
      AddUsersValues(users', rest);
      var r := AddUsers(users', rest);
      assert AddUsers(users, results) == Inserted(r.users, r.added + 1);
      assert Retains(users, r.users) by {
        forall k | k in users
          ensures k in r.users && r.users[k] == users[k]
        {
          assert k in users' && users'[k] == users[k];
        }
      }
      forall i | 0 <= i < r.added + 1
        ensures results[i].email in r.users && r.users[results[i].email] == ToUserData(results[i])
      {
        if i > 0 {
          assert results[i] == rest[i - 1];
        } else {
          assert first.email in users' && users'[first.email] == ToUserData(first);
        }
      }
    }
  }

  /** HandleUserData runs to the end exactly when the page's emails are fresh. */
  lemma AddUsersCompletes(users: map<string, UserData>, results: seq<FinalUser>)
    ensures AddUsers(users, results).added == |results| <==> EmailsFresh(users, results)
  {
    AddUsersStops(users, results);
    var p := AddUsers(users, results).added;
    if p < |results| {
      var e := results[p].email;
      if e !in users {
        var i :| 0 <= i < p && results[..p][i].email == e;
        assert results[i].email == results[p].email;
      }
      assert !EmailsFresh(users, results);
    }
    if p == |results| {
      assert results[..p] == results;
    }
  }
}
