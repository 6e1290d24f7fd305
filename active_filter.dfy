/** `write_active_test_users`: the header row, then `[id, email]` for every user that
    is active and whose email ends with ".test", in input order. The rows are
    returned instead of being written to a CSV file. */
module ActiveFilter {
  import opened Wrappers
  import opened Text
  import opened Users

  const ActiveStatus: string := "active"
  const TestSuffix: string := ".test"
  const Header: Row := [Text("id"), Text("email")]

  /** The filter of the script: status is exactly "active" (a missing status never
      is) and the email, read as "" when missing, ends with ".test". */
  predicate IsActiveTest(u: User) {
    u.status == Some(ActiveStatus) && EndsWith(EmailOf(u), TestSuffix)
  }

  /** The row written for a selected user. */
  function UserRow(u: User): Row {
    [u.id, Text(EmailOf(u))]
  }

  /** The users that pass the filter, in input order. */
  function Selected(users: seq<User>): (selected: seq<User>)
    ensures |selected| <= |users|
    ensures forall i :: 0 <= i < |selected| ==> IsActiveTest(selected[i])
  {
    if users == [] then []
    else
      var last := users[|users| - 1];
      Selected(users[..|users| - 1]) + (if IsActiveTest(last) then [last] else [])
  }

  /** Selection distributes over concatenation, so relative order is kept. */
  lemma {:induction false} SelectedAppend(a: seq<User>, b: seq<User>)
    ensures Selected(a + b) == Selected(a) + Selected(b)
  {
    if b != [] {
      var init := b[..|b| - 1];
      assert (a + b)[..|a + b| - 1] == a + init;
      SelectedAppend(a, init);
    } else {
      assert a + b == a;
    }
  }

  /** Exactly the users that pass the filter are selected, each as often as it
      occurs in the input. */
  lemma {:induction false} SelectedCount(users: seq<User>, u: User)
    ensures multiset(Selected(users))[u] == if IsActiveTest(u) then multiset(users)[u] else 0
  {
    if users != [] {
      var init := users[..|users| - 1];
      assert users == init + [users[|users| - 1]];
      SelectedCount(init, u);
    }
  }

  /** A user with no email, or whose status is missing or other than "active", is
      never selected; an email with no "@" still qualifies when it ends with ".test". */
  lemma ExcludedAndIncluded(id: Cell, email: Option<string>, status: Option<string>)
    ensures !IsActiveTest(User(id, None, status))
    ensures status != Some("active") ==> !IsActiveTest(User(id, email, status))
    ensures IsActiveTest(User(id, Some("x.test"), Some("active")))
  {
    assert "x.test"[1..] == ".test";
  }

  /** The three-user example: only the active user with a ".test" email is reported. */
  lemma ExampleSelection()
    ensures
      var u1 := User(Int(1), Some("a@x.test"), Some("active"));
      var u2 := User(Int(2), Some("b@x.com"), Some("active"));
      var u3 := User(Int(3), Some("c@y.test"), Some("inactive"));
      Selected([u1, u2, u3]) == [u1]
  {
    var u1 := User(Int(1), Some("a@x.test"), Some("active"));
    var u2 := User(Int(2), Some("b@x.com"), Some("active"));
    var u3 := User(Int(3), Some("c@y.test"), Some("inactive"));
    assert "a@x.test"[3..] == ".test";
    assert "b@x.com"[2..][0] == 'x';
    assert "b@x.com"[2..] != ".test";
    assert [u1][..0] == [];
    assert Selected([u1]) == [u1];
    assert [u1, u2][..1] == [u1];
    assert Selected([u1, u2]) == [u1];
    assert [u1, u2, u3][..2] == [u1, u2];
  }

  /** Write the header, then one row per selected user. */
  method WriteActiveTestUsers(users: seq<User>) returns (rows: seq<Row>)
    ensures |rows| == 1 + |Selected(users)| && rows[0] == Header
    ensures forall i :: 0 <= i < |Selected(users)| ==> rows[i + 1] == UserRow(Selected(users)[i])
  {
    rows := [Header];
    for n := 0 to |users|
      invariant |rows| == 1 + |Selected(users[..n])| && rows[0] == Header
      invariant forall i :: 0 <= i < |Selected(users[..n])| ==>
        rows[i + 1] == UserRow(Selected(users[..n])[i])
    {
      assert users[..n + 1][..n] == users[..n];
      var u := users[n];
      if IsActiveTest(u) {
        rows := rows + [UserRow(u)];
      }
    }
    assert users[..|users|] == users;
  }
}
