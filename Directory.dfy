/**
 * How the directory screen wires the pieces together: the hook's clamped
 * page and page count feed the page controls, whose buttons call the hook's
 * navigation callbacks, and the list highlights the same query the hook
 * filtered with.
 */
module Directory {
  import opened Text
  import opened PaginatedUsers
  import opened Pagination
  import opened HighlightText

  /**
   * With the controls shown, "previous" is disabled exactly when
   * `previousPage` would do nothing, and "next" exactly when `nextPage`
   * would do nothing, for every raw page of at least 1.
   */
  lemma DisabledButtonsAreNoOps(rawPage: int, totalPages: nat)
    requires rawPage >= 1 && totalPages > 1
    ensures ClampPage(rawPage, totalPages) == 1 <==> PreviousPageUpdate(rawPage) == rawPage
    ensures ClampPage(rawPage, totalPages) == totalPages <==> NextPageUpdate(rawPage, totalPages) == rawPage
  {
  }

  /** The page the hook reports always has its own button among the controls. */
  lemma ShownPageHasButton(allUsers: seq<User>, searchQuery: string, rawPage: int, pageSize: nat)
    requires pageSize > 0 && rawPage >= 1
    ensures var v := View(allUsers, searchQuery, rawPage, pageSize);
      v.totalPages > 1 ==> Num(v.currentPage) in Buttons(v.currentPage, v.totalPages)
  {
    var v := View(allUsers, searchQuery, rawPage, pageSize);
    if v.totalPages > 1 {
      ButtonsShowCurrent(v.currentPage, v.totalPages);
    }
  }

  /** Clicking any numbered button shows that page next. */
  lemma ClickedButtonIsShown(currentPage: int, rawPage: int, totalPages: nat, k: int)
    requires 0 <= k < |Buttons(currentPage, totalPages)|
    requires Buttons(currentPage, totalPages)[k].Num?
    ensures var n := Buttons(currentPage, totalPages)[k].page;
      var after := GoToPageUpdate(rawPage, n, totalPages);
      after == n && ClampPage(after, totalPages) == n
  {
    ButtonsInRange(currentPage, totalPages);
  }

  /**
   * The filter trims the query but the highlighting does not: with a
   * trailing space, a user is kept for its name while nothing in that name
   * is highlighted.
   */
  lemma TrimmedFilterUntrimmedHighlight()
    ensures var u := User(1, "ab", "x", "c");
      && FilterUsers([u], "b ") == [u]
      && Highlight(u.name, "b ") == [Part("ab", false)]
  {
    var u := User(1, "ab", "x", "c");
    assert IsSpace(' ') && !IsSpace('b');
    assert TrimStart("b ") == "b ";
    assert TrimEnd("b ") == "b";
    assert !IsBlank("b ");
    assert LowerStr("b ") == "b ";
    assert Trim(LowerStr("b ")) == "b";
    assert LowerStr("ab") == "ab";
    assert Contains("ab"[1..], "b");
    assert Matches(u, "b");
    assert SelectFrom([u], "b", 1) == [];
    HighlightSplitsOnUntrimmedQuery("ab", "b ");
    assert !MatchAt("ab", "b ", 0) && !MatchAt("ab", "b ", 1);
    assert SplitFrom("ab", "b ", 0, 2) == ["ab"];
    assert Split("ab", "b ") == ["ab"];
    assert LabelFrom(["ab"], 0) == [Part("ab", false)];
  }

  /** Twelve users, five to a page, no query: three pages of 5, 5 and 2 users, walked with "next". */
  lemma TwelveUsersWalk(users: seq<User>)
    requires |users| == 12
    ensures View(users, "", 1, 5) == PageView(users[..5], 1, 3, 12)
    ensures NextPageUpdate(1, 3) == 2 && View(users, "", 2, 5) == PageView(users[5..10], 2, 3, 12)
    ensures NextPageUpdate(2, 3) == 3 && View(users, "", 3, 5) == PageView(users[10..], 3, 3, 12)
    ensures NextPageUpdate(3, 3) == 3
  {
    assert IsBlank("");
    assert TotalPages(12, 5) == 3;
  }

  function Named(id: int, name: string): User
  {
    User(id, name, "m@x", "Acme")
  }

  lemma NoMatchU1(id: int, d: char)
    requires '2' <= d <= '9'
    ensures !Matches(Named(id, ['U', d]), "u1")
  {
    var name, email := LowerStr(['U', d]), LowerStr("m@x");
    assert name == ['u', d];
    ContainsIff(name, "u1");
    ContainsIff(email, "u1");
    assert email == "m@x";
    forall i ensures !OccursAt(email, "u1", i) {
      if 0 <= i && i + 2 <= |email| {
        assert email[i..i + 2][0] == email[i] != 'u';
      }
    }
    forall i ensures !OccursAt(name, "u1", i) {
      if i == 0 {
        assert name[0..2][1] == d != '1';
      }
    }
  }

  lemma MatchU1(id: int, name: string)
    requires |name| >= 2 && name[0] == 'U' && name[1] == '1'
    ensures Matches(Named(id, name), "u1")
  {
    assert LowerStr(name)[..2] == "u1";
  }

  lemma FilterBySelection(users: seq<User>, q: string, n: string, r: seq<User>)
    requires !IsBlank(q) && Needle(q) == n
    requires |users| == 12 && r == [users[0], users[9], users[10], users[11]]
    requires Matches(users[0], n) && Matches(users[9], n)
    requires Matches(users[10], n) && Matches(users[11], n)
    requires !Matches(users[1], n) && !Matches(users[2], n) && !Matches(users[3], n)
    requires !Matches(users[4], n) && !Matches(users[5], n) && !Matches(users[6], n)
    requires !Matches(users[7], n) && !Matches(users[8], n)
    ensures FilterUsers(users, q) == r
  {
    SelectU1(users, n);
  }

  lemma NeedleU1()
    ensures !IsBlank("U1") && Needle("U1") == "u1"
  {
    assert !IsSpace('U') && !IsSpace('u') && !IsSpace('1');
    assert TrimStart("U1") == "U1" && TrimEnd("U1") == "U1";
    assert Lower('U') == 'u';
    assert LowerStr("U1") == "u1";
    assert TrimStart("u1") == "u1" && TrimEnd("u1") == "u1";
  }

  lemma SelectU1(users: seq<User>, n: string)
    requires |users| == 12
    requires Matches(users[0], n) && Matches(users[9], n)
    requires Matches(users[10], n) && Matches(users[11], n)
    requires !Matches(users[1], n) && !Matches(users[2], n) && !Matches(users[3], n)
    requires !Matches(users[4], n) && !Matches(users[5], n) && !Matches(users[6], n)
    requires !Matches(users[7], n) && !Matches(users[8], n)
    ensures SelectFrom(users, n, 0) == [users[0], users[9], users[10], users[11]]
  {
    assert SelectFrom(users, n, 12) == [];
    assert SelectFrom(users, n, 11) == [users[11]];
    assert SelectFrom(users, n, 10) == [users[10], users[11]];
    assert SelectFrom(users, n, 9) == [users[9], users[10], users[11]];
    assert SelectFrom(users, n, 8) == SelectFrom(users, n, 9);
    assert SelectFrom(users, n, 7) == SelectFrom(users, n, 9);
    assert SelectFrom(users, n, 6) == SelectFrom(users, n, 9);
    assert SelectFrom(users, n, 5) == SelectFrom(users, n, 9);
    assert SelectFrom(users, n, 4) == SelectFrom(users, n, 9);
    assert SelectFrom(users, n, 3) == SelectFrom(users, n, 9);
    assert SelectFrom(users, n, 2) == SelectFrom(users, n, 9);
    assert SelectFrom(users, n, 1) == SelectFrom(users, n, 9);
  }

  /** Which of the users U1 to U12 match the needle "u1". */
  lemma UsersU1Match(users: seq<User>)
    requires |users| == 12
    requires users[0] == Named(1, "U1") && users[9] == Named(10, "U10") && users[10] == Named(11, "U11") && users[11] == Named(12, "U12")
    requires users[1] == Named(2, ['U', '2']) && users[2] == Named(3, ['U', '3']) && users[3] == Named(4, ['U', '4'])
    requires users[4] == Named(5, ['U', '5']) && users[5] == Named(6, ['U', '6']) && users[6] == Named(7, ['U', '7'])
    requires users[7] == Named(8, ['U', '8']) && users[8] == Named(9, ['U', '9'])
    ensures Matches(users[0], "u1") && Matches(users[9], "u1")
    ensures Matches(users[10], "u1") && Matches(users[11], "u1")
    ensures !Matches(users[1], "u1") && !Matches(users[2], "u1") && !Matches(users[3], "u1")
    ensures !Matches(users[4], "u1") && !Matches(users[5], "u1") && !Matches(users[6], "u1")
    ensures !Matches(users[7], "u1") && !Matches(users[8], "u1")
  {
    MatchU1(1, "U1"); MatchU1(10, "U10"); MatchU1(11, "U11"); MatchU1(12, "U12");
    NoMatchU1(2, '2'); NoMatchU1(3, '3'); NoMatchU1(4, '4'); NoMatchU1(5, '5');
    NoMatchU1(6, '6'); NoMatchU1(7, '7'); NoMatchU1(8, '8'); NoMatchU1(9, '9');
  }

  /** The query "U1" against U1 to U12 keeps U1, U10, U11 and U12: one page of four. */
  lemma QueryU1(users: seq<User>, query: string)
    requires |users| == 12
    requires users[0] == Named(1, "U1") && users[9] == Named(10, "U10") && users[10] == Named(11, "U11") && users[11] == Named(12, "U12")
    requires users[1] == Named(2, ['U', '2']) && users[2] == Named(3, ['U', '3']) && users[3] == Named(4, ['U', '4'])
    requires users[4] == Named(5, ['U', '5']) && users[5] == Named(6, ['U', '6']) && users[6] == Named(7, ['U', '7'])
    requires users[7] == Named(8, ['U', '8']) && users[8] == Named(9, ['U', '9'])
    requires query == "U1"
    ensures FilterUsers(users, query) == [users[0], users[9], users[10], users[11]]
    ensures View(users, query, 1, 5).totalPages == 1
  {
    NeedleU1();
    UsersU1Match(users);
    FilterBySelection(users, query, "u1", [users[0], users[9], users[10], users[11]]);
    assert TotalPages(4, 5) == 1;
  }
}
