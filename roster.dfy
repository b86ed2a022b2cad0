/**
 * Participant rosters: the `participants` array of a giveaway, edited by the
 * 🎉 reaction handlers, and the sequence facts the rest of the model relies on.
 */
module Roster {

  /** A Discord user id (a snowflake in decimal). */
  type UserId = string

  predicate Distinct(s: seq<string>) {
    forall i, j :: 0 <= i < j < |s| ==> s[i] != s[j]
  }

  /** `s.filter(x => !drop.has(x))`: the elements outside `drop`, in their original order. */
  function Without(s: seq<string>, drop: set<string>): (r: seq<string>)
    ensures forall x :: x in r <==> x in s && x !in drop
    ensures |r| <= |s|
  {
    if s == [] then [] else (if s[0] in drop then [] else [s[0]]) + Without(s[1..], drop)
  }

  /** Filtering distributes over concatenation, so the survivors keep their relative order. */
  lemma {:induction false} WithoutAppend(a: seq<string>, b: seq<string>, drop: set<string>)
    ensures Without(a + b, drop) == Without(a, drop) + Without(b, drop)
  {
    if a == [] {
      assert a + b == b;
    } else {
      assert (a + b)[1..] == a[1..] + b;
      WithoutAppend(a[1..], b, drop);
    }
  }

  /** Every occurrence of a dropped value goes, every other value keeps its multiplicity. */
  lemma {:induction false} WithoutCounts(s: seq<string>, drop: set<string>, x: string)
    ensures multiset(Without(s, drop))[x] == if x in drop then 0 else multiset(s)[x]
  {
    if s != [] {
      WithoutCounts(s[1..], drop, x);
      var head := if s[0] in drop then [] else [s[0]];
      assert multiset(s) == multiset([s[0]]) + multiset(s[1..]) by {
        assert s == [s[0]] + s[1..];
      }
      assert multiset(Without(s, drop)) == multiset(head) + multiset(Without(s[1..], drop));
    }
  }

  /** Filtering out values that do not occur changes nothing. */
  lemma {:induction false} WithoutNothing(s: seq<string>, drop: set<string>)
    requires forall x :: x in drop ==> x !in s
    ensures Without(s, drop) == s
  {
    if s != [] {
      WithoutNothing(s[1..], drop);
    }
  }

  /** Filtering twice is filtering once by the union. */
  lemma {:induction false} WithoutWithout(s: seq<string>, a: set<string>, b: set<string>)
    ensures Without(Without(s, a), b) == Without(s, a + b)
  {
    if s != [] {
      WithoutWithout(s[1..], a, b);
      var head := if s[0] in a then [] else [s[0]];
      WithoutAppend(head, Without(s[1..], a), b);
      if s[0] !in a {
        assert Without(head, b) == Without([s[0]][1..], b) + (if s[0] in b then [] else [s[0]]);
      }
    }
  }

  /** A duplicate-free sequence is one in which no value occurs twice. */
  lemma {:induction false} DistinctCounts(s: seq<string>)
    ensures Distinct(s) <==> forall x :: multiset(s)[x] <= 1
  {
    if s != [] {
      var t := s[1..];
      DistinctCounts(t);
      assert s == [s[0]] + t;
      if Distinct(s) {
        assert Distinct(t) by {
          forall i, j | 0 <= i < j < |t| ensures t[i] != t[j] {
            assert t[i] == s[i + 1] && t[j] == s[j + 1];
          }
        }
      } else {
        var i, j :| 0 <= i < j < |s| && s[i] == s[j];
        if i == 0 {
          assert s[0] in t by { assert t[j - 1] == s[j]; }
          assert multiset(s)[s[0]] >= 2;
        } else {
          assert t[i - 1] == t[j - 1];
          assert !Distinct(t);
          var x :| multiset(t)[x] > 1;
          assert multiset(s) == multiset([s[0]]) + multiset(t);
          assert multiset(s)[x] > 1;
        }
      }
    }
  }

  /** In a duplicate-free sequence no element occurs before its own position. */
  lemma DistinctFresh(s: seq<string>, j: nat)
    requires Distinct(s) && j < |s|
    ensures s[j] !in s[..j]
  {
    assert forall m :: 0 <= m < j ==> s[..j][m] == s[m] != s[j];
  }

  /** Appending a new value keeps a sequence duplicate-free. */
  lemma DistinctSnoc(s: seq<string>, x: string)
    requires Distinct(s) && x !in s
    ensures Distinct(s + [x])
  {
  }

  /** A reordering of a duplicate-free sequence is duplicate-free. */
  lemma DistinctPermutation(a: seq<string>, b: seq<string>)
    requires multiset(a) == multiset(b) && Distinct(a)
    ensures Distinct(b)
  {
    DistinctCounts(a);
    DistinctCounts(b);
  }

  /** The position of `x` in `s`: the first index holding it. */
  function IndexOf(s: seq<string>, x: string): (n: nat)
    requires x in s
    ensures n < |s| && s[n] == x
  {
    if s[0] == x then 0 else 1 + IndexOf(s[1..], x)
  }

  /** The tail of a duplicate-free sequence is duplicate-free and lacks the head. */
  lemma DistinctTail(s: seq<string>)
    requires Distinct(s) && s != []
    ensures Distinct(s[1..]) && s[0] !in s[1..]
  {
    assert forall a :: 0 <= a < |s| - 1 ==> s[1..][a] == s[a + 1];
  }

  /** Past the head, positions in `s` compare as they do in its tail. */
  lemma IndexOfTail(s: seq<string>, x: string, y: string)
    requires s != [] && x in s[1..] && y in s[1..] && x != s[0] && y != s[0]
    requires IndexOf(s[1..], x) < IndexOf(s[1..], y)
    ensures IndexOf(s, x) < IndexOf(s, y)
  {
  }

  /** `Without` over a dropped head. */
  lemma WithoutDropHead(s: seq<string>, drop: set<string>)
    requires s != [] && s[0] in drop
    ensures Without(s, drop) == Without(s[1..], drop)
  {
  }

  /** `Without` over a kept head. */
  lemma WithoutKeepHead(s: seq<string>, drop: set<string>)
    requires s != [] && s[0] !in drop
    ensures Without(s, drop) == [s[0]] + Without(s[1..], drop)
  {
  }

  /** Filtering a duplicate-free sequence keeps the survivors in their original relative order. */
  lemma {:induction false} WithoutOrder(s: seq<string>, drop: set<string>, i: nat, j: nat)
    requires Distinct(s) && i < j < |Without(s, drop)|
    ensures IndexOf(s, Without(s, drop)[i]) < IndexOf(s, Without(s, drop)[j])
  {
    var t := Without(s[1..], drop);
    DistinctTail(s);
    if s[0] in drop {
      WithoutDropHead(s, drop);
      WithoutOrder(s[1..], drop, i, j);
      IndexOfTail(s, t[i], t[j]);
    } else {
      WithoutKeepHead(s, drop);
      if i == 0 {
        assert Without(s, drop)[j] == t[j - 1];
        assert Without(s, drop)[0] == s[0];
      } else {
        var i', j' := i - 1, j - 1;
        assert Without(s, drop)[i] == t[i'] && Without(s, drop)[j] == t[j'];
        WithoutOrder(s[1..], drop, i', j');
        IndexOfTail(s, t[i'], t[j']);
      }
    }
  }

  /** Filtering keeps a duplicate-free sequence duplicate-free. */
  lemma WithoutDistinct(s: seq<string>, drop: set<string>)
    requires Distinct(s)
    ensures Distinct(Without(s, drop))
  {
    DistinctCounts(s);
    forall x ensures multiset(Without(s, drop))[x] <= 1 {
      WithoutCounts(s, drop, x);
    }
    DistinctCounts(Without(s, drop));
  }

  /** The roster after a 🎉 reaction is added (index.js:299-302): the user is appended unless already present. */
  function OptIn(roster: seq<UserId>, user: UserId): (r: seq<UserId>)
    ensures user in r && roster <= r
    ensures forall x :: x in r <==> x in roster || x == user
    ensures |r| == if user in roster then |roster| else |roster| + 1
  {
    if user in roster then roster else roster + [user]
  }

  /** The roster after a 🎉 reaction is removed (index.js:311): every occurrence of the user is filtered out. */
  function OptOut(roster: seq<UserId>, user: UserId): (r: seq<UserId>)
    ensures forall x :: x in r <==> x in roster && x != user
    ensures |r| <= |roster|
    ensures user !in roster ==> r == roster
  {
    if user !in roster then WithoutNothing(roster, {user}); Without(roster, {user})
    else Without(roster, {user})
  }

  /** Opting in twice is opting in once; a present user changes nothing. */
  lemma OptInIdempotent(roster: seq<UserId>, user: UserId)
    ensures OptIn(OptIn(roster, user), user) == OptIn(roster, user)
    ensures user in roster ==> OptIn(roster, user) == roster
  {
  }

  /** Opting in keeps a duplicate-free roster duplicate-free. */
  lemma OptInDistinct(roster: seq<UserId>, user: UserId)
    requires Distinct(roster)
    ensures Distinct(OptIn(roster, user))
  {
  }

  /**
   * Opting out removes the user entirely and keeps every other member with its
   * multiplicity and in its order; on a non-member it changes nothing.
   */
  lemma OptOutSpec(roster: seq<UserId>, user: UserId)
    ensures user !in OptOut(roster, user)
    ensures forall x :: x != user ==> multiset(OptOut(roster, user))[x] == multiset(roster)[x]
    ensures forall a, b :: roster == a + b ==> OptOut(roster, user) == OptOut(a, user) + OptOut(b, user)
    ensures user !in roster ==> OptOut(roster, user) == roster
    ensures Distinct(roster) ==> Distinct(OptOut(roster, user))
  {
    forall x | x != user ensures multiset(OptOut(roster, user))[x] == multiset(roster)[x] {
      WithoutCounts(roster, {user}, x);
    }
    forall a, b | roster == a + b ensures OptOut(roster, user) == OptOut(a, user) + OptOut(b, user) {
      WithoutAppend(a, b, {user});
    }
    if user !in roster {
      WithoutNothing(roster, {user});
    }
    if Distinct(roster) {
      WithoutDistinct(roster, {user});
    }
  }

  /** Opting out twice is opting out once. */
  lemma OptOutIdempotent(roster: seq<UserId>, user: UserId)
    ensures OptOut(OptOut(roster, user), user) == OptOut(roster, user)
  {
    WithoutWithout(roster, {user}, {user});
    assert {user} + {user} == {user};
  }
}
