/**
 * ScrollUsersWindow's list bookkeeping as an object whose fields the methods update in place:
 * the pool of User cells (each abstracted to its active flag), the active-list cells, the
 * AllUsers dictionary and the scrollbar value. Each method is tied to UserPoolSpec.
 */
module ScrollableUserScreen {
  import opened Wrappers
  import opened Collections
  import opened UserPoolSpec

  /** The exceptions that end a window operation early. */
  datatype WindowFault =
    | NullProperties   // Properties or Properties.AllUsers is null: NullReferenceException
    | DuplicateEmail   // Dictionary.Add of an email already present: ArgumentException

  /**
   * One cell per entry: `after` extends `before` by one email per key, each key exactly once.
   */
  ghost predicate ShowsEachOnce(before: seq<string>, after: seq<string>, keys: set<string>)
  {
    && |after| == |before| + |keys|
    && after[..|before|] == before
    && Distinct(after[|before|..])
    && (forall k :: |before| <= k < |after| ==> after[k] in keys)
    && (forall e :: e in keys ==> e in after[|before|..])
  }

  /**
   * A walk over a key set part of the way: the keys taken so far, in order, and the keys not
   * yet taken make up the key set, each key once.
   */
  ghost predicate Enumerated(visited: seq<string>, remaining: set<string>, keys: set<string>)
  {
    multiset(visited) + multiset(remaining) == multiset(keys)
  }

  lemma EnumeratedStep(visited: seq<string>, remaining: set<string>, keys: set<string>, e: string)
    requires Enumerated(visited, remaining, keys) && e in remaining
    ensures Enumerated(visited + [e], remaining - {e}, keys)
  {
    assert multiset(remaining) == multiset(remaining - {e}) + multiset{e};
  }

  /** A key occurs at most once in a finished walk. */
  lemma EnumeratedDistinct(visited: seq<string>, keys: set<string>)
    requires multiset(visited) == multiset(keys)
    ensures Distinct(visited)
  {
    forall i, j | 0 <= i < j < |visited|
      ensures visited[i] != visited[j]
    {
      var x := visited[i];
      var a, b, c := visited[..i], visited[i + 1..j], visited[j + 1..];
      assert visited == a + [x] + b + [visited[j]] + c;
      assert multiset(keys)[x] <= 1;
    }
  }

  /** A finished walk, appended to `before`, shows each key once. */
  lemma EnumeratedShowsEachOnce(before: seq<string>, visited: seq<string>, keys: set<string>)
    requires Enumerated(visited, {}, keys)
    ensures ShowsEachOnce(before, before + visited, keys)
  {
    assert multiset(visited) == multiset(keys);
    EnumeratedDistinct(visited, keys);
    var after := before + visited;
    assert after[|before|..] == visited;
    assert after[..|before|] == before;
    assert |visited| == |multiset(visited)| == |multiset(keys)| == |keys|;
    forall k | |before| <= k < |after|
      ensures after[k] in keys
    {
      assert after[k] == visited[k - |before|];
      assert after[k] in multiset(visited);
    }
    forall e | e in keys
      ensures e in visited
    {
      assert e in multiset(keys);
    }
  }

  /**
   * Laying out a finished walk over the keys of `users` after a valid list: one cell per key,
   * the pool bookkeeping still holds, and every email shown is a key of `users`.
   */
  lemma LayoutKeepsValid(pool: seq<bool>, cells: seq<nat>, shown: seq<string>, users: map<string, UserData>, visited: seq<string>)
    requires PoolValid(pool, cells) && |shown| == |cells|
    requires forall k :: 0 <= k < |shown| ==> shown[k] in users
    requires Enumerated(visited, {}, users.Keys)
    ensures |visited| == |users.Keys|
    ensures PoolValid(AcquireMany(pool, |visited|).pool, cells + AcquireMany(pool, |visited|).cells)
    ensures ShowsEachOnce(shown, shown + visited, users.Keys)
    ensures forall k :: 0 <= k < |shown + visited| ==> (shown + visited)[k] in users
  {
    EnumeratedShowsEachOnce(shown, visited, users.Keys);
    AcquireManyKeepsValid(pool, cells, |visited|);
    var after := shown + visited;
    forall k | 0 <= k < |after|
      ensures after[k] in users
    {
      if k < |shown| {
        assert after[k] == shown[k];
      }
    }
  }

  class ScrollUsersWindow {
    /** userPool: every User cell ever created, by its active flag, in creation order. */
    var userPool: seq<bool>
    /** userActiveListCells: the cells showing a user, as indices into the pool. */
    var userActiveListCells: seq<nat>
    /** The email each active-list cell was initialized with. */
    ghost var shownEmails: seq<string>
    /** Properties.AllUsers; None when Properties or its dictionary is null. */
    var allUsers: Option<map<string, UserData>>
    var scrollbarValue: real

    /**
     * The pool bookkeeping holds, every active-list cell shows one user, and every user shown
     * is in AllUsers.
     */
    ghost predicate Valid()
      reads this
    {
      && PoolValid(userPool, userActiveListCells)
      && |shownEmails| == |userActiveListCells|
      && (forall k :: 0 <= k < |shownEmails| ==> allUsers.Some? && shownEmails[k] in allUsers.value)
    }

    constructor (properties: Option<map<string, UserData>>, scrollbar: real)
      ensures userPool == [] && userActiveListCells == [] && shownEmails == []
      ensures allUsers == properties && scrollbarValue == scrollbar
      ensures Valid()
    {
      userPool := [];
      userActiveListCells := [];
      shownEmails := [];
      allUsers := properties;
      scrollbarValue := scrollbar;
    }

    /**
     * GetUserObject: reuse the first inactive cell of the pool, or create a new active cell
     * at the end of the pool.
     */
    method GetUserObject() returns (user: nat)
      modifies this
      ensures userPool == Acquire(old(userPool)).pool && user == Acquire(old(userPool)).cell
      ensures userActiveListCells == old(userActiveListCells) && shownEmails == old(shownEmails)
      ensures allUsers == old(allUsers) && scrollbarValue == old(scrollbarValue)
    {
      for i := 0 to |userPool|
        invariant unchanged(this)
        invariant forall j :: 0 <= j < i ==> userPool[j]
      {
        if !userPool[i] {
          userPool := userPool[i := true];
          return i;
        }
      }
      // Instantiate: the new cell is a clone of the active prefab.
      userPool := userPool + [true];
      user := |userPool| - 1;
    }

    /** ReturnAllUserObjectsToPool: every cell of the pool becomes inactive; none is removed. */
    method ReturnAllUserObjectsToPool()
      modifies this
      ensures userPool == AllInactive(|old(userPool)|)
      ensures userActiveListCells == old(userActiveListCells) && shownEmails == old(shownEmails)
      ensures allUsers == old(allUsers) && scrollbarValue == old(scrollbarValue)
    {
      for i := 0 to |userPool|
        invariant |userPool| == |old(userPool)|
        invariant forall j :: 0 <= j < i ==> !userPool[j]
        invariant userActiveListCells == old(userActiveListCells) && shownEmails == old(shownEmails)
        invariant allUsers == old(allUsers) && scrollbarValue == old(scrollbarValue)
      {
        userPool := userPool[i := false];
      }
      assert userPool == AllInactive(|old(userPool)|);
    }

    /**
     * CleanUpScrollWindow: the pool goes all inactive and the active list empty; then the
     * AllUsers dictionary is cleared, which throws when it is null, before the scrollbar is
     * reset to 1.
     */
    method CleanUpScrollWindow() returns (outcome: Outcome<WindowFault>)
      modifies this
      ensures Valid()
      ensures userPool == AllInactive(|old(userPool)|)
      ensures userActiveListCells == [] && shownEmails == []
      ensures outcome == (if old(allUsers).None? then Fail(NullProperties) else Pass)
      ensures outcome.Pass? ==> allUsers == Some(map[]) && scrollbarValue == 1.0
      ensures outcome.Fail? ==> allUsers == old(allUsers) && scrollbarValue == old(scrollbarValue)
    {
      ReturnAllUserObjectsToPool();
      userActiveListCells := [];
      shownEmails := [];
      if allUsers.None? {
        return Fail(NullProperties);
      }
      allUsers := Some(map[]);
      scrollbarValue := 1.0;
      outcome := Pass;
    }

    /** One step of OnPropertiesSet: a cell from the pool joins the active list, showing `email`. */
    method ShowUser(email: string)
      modifies this
      ensures userPool == Acquire(old(userPool)).pool
      ensures userActiveListCells == old(userActiveListCells) + [Acquire(old(userPool)).cell]
      ensures shownEmails == old(shownEmails) + [email]
      ensures allUsers == old(allUsers) && scrollbarValue == old(scrollbarValue)
    {
      var user := GetUserObject();
      userActiveListCells := userActiveListCells + [user];
      shownEmails := shownEmails + [email];
    }

    /**
     * The loop of OnPropertiesSet over `users`: each entry, in the dictionary's order
     * `visited`, takes a cell from the pool, which joins the active list showing that entry.
     */
    method ShowAll(users: map<string, UserData>) returns (ghost visited: seq<string>)
      modifies this
      ensures Enumerated(visited, {}, users.Keys)
      ensures userPool == AcquireMany(old(userPool), |visited|).pool
      ensures userActiveListCells == old(userActiveListCells) + AcquireMany(old(userPool), |visited|).cells
      ensures shownEmails == old(shownEmails) + visited
      ensures allUsers == old(allUsers) && scrollbarValue == old(scrollbarValue)
    {
      var remaining := users.Keys;
      visited := [];
      ghost var pool0, cells0, shown0 := userPool, userActiveListCells, shownEmails;
      ghost var acquired := AcquiredMany(userPool, []);
      ghost var n := 0;
      while remaining != {}
        invariant Enumerated(visited, remaining, users.Keys)
        invariant n == |visited|
        invariant acquired == AcquireMany(pool0, n)
        invariant userPool == acquired.pool
        invariant userActiveListCells == cells0 + acquired.cells
        invariant shownEmails == shown0 + visited
        invariant allUsers == old(allUsers) && scrollbarValue == old(scrollbarValue)
        decreases |remaining|
      {
        var email :| email in remaining;
        EnumeratedStep(visited, remaining, users.Keys, email);
        AcquireManyNext(pool0, n);
        SeqAssoc(cells0, acquired.cells, [Acquire(acquired.pool).cell]);
        acquired := AcquireMany(pool0, n + 1);
        n := n + 1;
        ShowUser(email);
        visited := visited + [email];
        remaining := remaining - {email};
      }
    }

    /**
     * OnPropertiesSet: with no AllUsers, nothing changes; otherwise every entry of AllUsers
     * takes a cell from the pool, which joins the active list showing that entry.
     */
    method OnPropertiesSet()
      modifies this
      ensures old(Valid()) ==> Valid()
      ensures allUsers == old(allUsers) && scrollbarValue == old(scrollbarValue)
      ensures old(allUsers).None? ==>
        userPool == old(userPool) && userActiveListCells == old(userActiveListCells) && shownEmails == old(shownEmails)
      ensures old(allUsers).Some? ==>
        && userPool == AcquireMany(old(userPool), |old(allUsers).value.Keys|).pool
        && userActiveListCells == old(userActiveListCells) + AcquireMany(old(userPool), |old(allUsers).value.Keys|).cells
        && ShowsEachOnce(old(shownEmails), shownEmails, old(allUsers).value.Keys)
    {
      if allUsers.None? {
        return;
      }
      var users := allUsers.value;
      ghost var pool0, cells0, shown0 := userPool, userActiveListCells, shownEmails;
      ghost var visited := ShowAll(users);
      if old(Valid()) {
        LayoutKeepsValid(pool0, cells0, shown0, users, visited);
      } else {
        EnumeratedShowsEachOnce(shown0, visited, users.Keys);
      }
    }

    /**
     * HandleUserData: Add each result to AllUsers under its email, in order, then lay out the
     * list. A null dictionary or an email already present throws, which ends the call with
     * the entries added so far kept and the list not laid out.
     */
    method HandleUserData(results: seq<FinalUser>) returns (outcome: Outcome<WindowFault>)
      requires Valid()
      modifies this
      ensures Valid()
      ensures scrollbarValue == old(scrollbarValue)
      ensures old(allUsers).None? ==>
        && outcome == (if results == [] then Pass else Fail(NullProperties))
        && allUsers == old(allUsers) && userPool == old(userPool)
        && userActiveListCells == old(userActiveListCells) && shownEmails == old(shownEmails)
      ensures old(allUsers).Some? ==>
        && allUsers == Some(AddUsers(old(allUsers).value, results).users)
        && outcome == (if AddUsers(old(allUsers).value, results).added == |results| then Pass else Fail(DuplicateEmail))
      ensures old(allUsers).Some? && outcome.Fail? ==>
        userPool == old(userPool) && userActiveListCells == old(userActiveListCells) && shownEmails == old(shownEmails)
      ensures old(allUsers).Some? && outcome.Pass? ==>
        && userPool == AcquireMany(old(userPool), |allUsers.value.Keys|).pool
        && userActiveListCells == old(userActiveListCells) + AcquireMany(old(userPool), |allUsers.value.Keys|).cells
        && ShowsEachOnce(old(shownEmails), shownEmails, allUsers.value.Keys)
    {
      var i := 0;
      while i < |results|
        invariant 0 <= i <= |results|
        invariant allUsers.Some? == old(allUsers).Some?
        invariant allUsers.None? ==> i == 0
        invariant old(allUsers).Some? ==>
          && AddUsers(allUsers.value, results[i..]).users == AddUsers(old(allUsers).value, results).users
          && i + AddUsers(allUsers.value, results[i..]).added == AddUsers(old(allUsers).value, results).added
          && Retains(old(allUsers).value, allUsers.value)
        invariant userPool == old(userPool) && userActiveListCells == old(userActiveListCells)
        invariant shownEmails == old(shownEmails) && scrollbarValue == old(scrollbarValue)
        invariant Valid()
      {
        if allUsers.None? {
          return Fail(NullProperties);
        }
        var result := results[i];
        if result.email in allUsers.value {
          return Fail(DuplicateEmail);
        }
        assert results[i..][1..] == results[i + 1..];
        allUsers := Some(allUsers.value[result.email := ToUserData(result)]);
        i := i + 1;
      }
      OnPropertiesSet();
      outcome := Pass;
    }
  }
}
