/**
 * The two roster updates the store applies to an event's attendee list:
 * `$addToSet` (add a user unless present) and `$pull` (remove every
 * occurrence of a user).
 */
module Roster {
  import opened EventModel

  /** No user appears twice in the roster. */
  predicate NoDuplicates(s: seq<UserId>) {
    forall i, j :: 0 <= i < j < |s| ==> s[i] != s[j]
  }

  /** The number of occurrences of `u` in `s`. */
  function Count(s: seq<UserId>, u: UserId): (n: nat)
    ensures n <= |s|
    ensures n == 0 <==> u !in s
  {
    if s == [] then 0 else (if s[0] == u then 1 else 0) + Count(s[1..], u)
  }

  /** `$addToSet`: append `u` unless it is already in the roster. */
  function AddToSet(s: seq<UserId>, u: UserId): (r: seq<UserId>)
    ensures |s| <= |r| <= |s| + 1
    ensures r[..|s|] == s
    ensures forall x :: x in r <==> x in s || x == u
    ensures u in s ==> r == s
  {
    if u in s then s else s + [u]
  }

  /** `$pull`: drop every occurrence of `u`, keeping the others in order. */
  function Pull(s: seq<UserId>, u: UserId): (r: seq<UserId>)
    ensures forall x :: x in r <==> x in s && x != u
    ensures |r| == |s| - Count(s, u)
    ensures forall x :: x != u ==> Count(r, x) == Count(s, x)
    ensures u !in s ==> r == s
  {
    if s == [] then []
    else if s[0] == u then Pull(s[1..], u)
    else [s[0]] + Pull(s[1..], u)
  }

  /** The tail of a duplicate-free sequence is duplicate-free and lacks the head. */
  lemma NoDuplicatesTail(s: seq<UserId>)
    requires s != [] && NoDuplicates(s)
    ensures NoDuplicates(s[1..]) && s[0] !in s[1..]
  {
    forall j | 0 <= j < |s[1..]| ensures s[1..][j] != s[0] {
      assert s[1..][j] == s[j + 1];
    }
  }

  /** Putting a new element in front of a duplicate-free sequence keeps it duplicate-free. */
  lemma NoDuplicatesCons(x: UserId, rest: seq<UserId>)
    requires NoDuplicates(rest) && x !in rest
    ensures NoDuplicates([x] + rest)
  {
    var r := [x] + rest;
    forall i, j | 0 <= i < j < |r| ensures r[i] != r[j] {
      assert r[j] == rest[j - 1];
      if i > 0 {
        assert r[i] == rest[i - 1];
      }
    }
  }

  lemma {:induction false} CountAppend(a: seq<UserId>, b: seq<UserId>, u: UserId)
    ensures Count(a + b, u) == Count(a, u) + Count(b, u)
  {
    if a == [] {
      assert a + b == b;
    } else {
      assert (a + b)[1..] == a[1..] + b;
      CountAppend(a[1..], b, u);
    }
  }

  /** In a roster without duplicates a user occurs at most once. */
  lemma {:induction false} NoDuplicatesCount(s: seq<UserId>, u: UserId)
    requires NoDuplicates(s)
    ensures Count(s, u) <= 1
  {
    if s != [] {
      NoDuplicatesTail(s);
      NoDuplicatesCount(s[1..], u);
    }
  }

  /**
   * Adding to the set keeps the roster duplicate-free and leaves the user in
   * it exactly once; the roster grows by one exactly when the user was absent.
   */
  lemma AddToSetOnce(s: seq<UserId>, u: UserId)
    requires NoDuplicates(s)
    ensures NoDuplicates(AddToSet(s, u))
    ensures Count(AddToSet(s, u), u) == 1
    ensures forall x :: x in AddToSet(s, u) <==> x in s || x == u
    ensures |AddToSet(s, u)| == if u in s then |s| else |s| + 1
  {
    NoDuplicatesCount(s, u);
    if u !in s {
      CountAppend(s, [u], u);
      assert Count([u], u) == 1 by {
        assert [u][1..] == [];
      }
    }
  }

  lemma {:induction false} PullKeepsNoDuplicates(s: seq<UserId>, u: UserId)
    requires NoDuplicates(s)
    ensures NoDuplicates(Pull(s, u))
  {
    if s != [] {
      NoDuplicatesTail(s);
      PullKeepsNoDuplicates(s[1..], u);
      if s[0] != u {
        NoDuplicatesCons(s[0], Pull(s[1..], u));
      }
    }
  }

  /** Pulling a member from a duplicate-free roster shortens it by exactly one. */
  lemma PullMemberShrinksByOne(s: seq<UserId>, u: UserId)
    requires NoDuplicates(s) && u in s
    ensures |Pull(s, u)| == |s| - 1
  {
    NoDuplicatesCount(s, u);
  }

  /** Pulling twice is pulling once. */
  lemma PullIdempotent(s: seq<UserId>, u: UserId)
    ensures Pull(Pull(s, u), u) == Pull(s, u)
  {
  }
}
