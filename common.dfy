/**
 * Vocabulary shared by every controller: document ids, the clock, requester
 * roles, the HTTP error statuses the handlers answer with, and the few list
 * operations on id arrays that the handlers perform (`includes`, `indexOf`,
 * `splice`, `filter`).
 */
module Common {

  /** A document id (MongoDB ObjectId), compared by plain equality. */
  type Id = nat

  /** A clock reading in milliseconds, as `Date.now()` returns it. */
  type Time = int

  datatype Option<T> = None | Some(value: T)

  /** The roles a user account can hold. */
  datatype Role = Guest | User | Alumni | SchoolAdmin | UsosaAdmin | SuperAdmin

  /** The authenticated requester as the auth middleware hands it over (`req.user`). */
  datatype Actor = Actor(id: Id, role: Role, schoolId: Option<Id>)

  /** The error responses of the handlers; ServerError stands for the catch-all 500. */
  datatype ErrorCode = BadRequest | Forbidden | NotFound | ServerError

  /** The answer of a handler that returns no value of interest. */
  datatype Outcome = Pass | Fail(error: ErrorCode)

  /** The answer of a handler that returns a value. */
  datatype Result<T> = Success(value: T) | Failure(error: ErrorCode)

  /** `['school_admin', 'usosa_admin', 'super_admin'].includes(role)` */
  predicate IsAdminRole(r: Role) {
    r == SchoolAdmin || r == UsosaAdmin || r == SuperAdmin
  }

  /** `['usosa_admin', 'super_admin'].includes(role)` */
  predicate IsPlatformAdmin(r: Role) {
    r == UsosaAdmin || r == SuperAdmin
  }

  /** JavaScript truthiness of an optional string taken from a request body. */
  predicate Truthy(s: Option<string>) {
    s.Some? && s.value != ""
  }

  /** The entries of `s` have pairwise distinct values. */
  predicate NoDup(s: seq<Id>) {
    forall i, j :: 0 <= i < j < |s| ==> s[i] != s[j]
  }

  /** `s.indexOf(x)`: the first position holding `x`, or -1. */
  function IndexOf(s: seq<Id>, x: Id): (i: int)
    ensures -1 <= i < |s|
    ensures i == -1 <==> x !in s
    ensures 0 <= i ==> s[i] == x && x !in s[..i]
  {
    if |s| == 0 then -1
    else if s[0] == x then 0
    else
      var k := IndexOf(s[1..], x);
      if k == -1 then -1
      else
        assert s[..k + 1] == [s[0]] + s[1..][..k];
        k + 1
  }

  /** `s.splice(s.indexOf(x), 1)` when `x` is present: drop its first occurrence. */
  function RemoveFirst(s: seq<Id>, x: Id): (r: seq<Id>)
    requires x in s
    ensures |r| == |s| - 1
    ensures multiset(r) == multiset(s) - multiset{x}
    ensures exists i :: 0 <= i < |s| && s[i] == x && x !in s[..i] && r == s[..i] + s[i + 1..]
  {
    var i := IndexOf(s, x);
    assert s == s[..i] + [s[i]] + s[i + 1..];
    s[..i] + s[i + 1..]
  }

  /** `s.filter(id => id !== x)`: drop every occurrence of `x`, keeping the order of the rest. */
  function RemoveAll(s: seq<Id>, x: Id): (r: seq<Id>)
    ensures forall y :: multiset(r)[y] == if y == x then 0 else multiset(s)[y]
    ensures |r| <= |s|
  {
    if |s| == 0 then []
    else
      assert s == [s[0]] + s[1..];
      if s[0] == x then RemoveAll(s[1..], x) else [s[0]] + RemoveAll(s[1..], x)
  }

  /**
   * Removing every occurrence of `x` empties the list exactly when every entry
   * is `x`: the "last moderator" and "last admin" guards refuse precisely then.
   */
  lemma {:induction false} RemoveAllEmpty(s: seq<Id>, x: Id)
    ensures RemoveAll(s, x) == [] <==> forall y :: y in s ==> y == x
  {
    if |s| > 0 {
      RemoveAllEmpty(s[1..], x);
      assert forall y :: y in s <==> y == s[0] || y in s[1..];
      if s[0] != x {
        assert RemoveAll(s, x)[0] == s[0];
        assert s[0] in s && s[0] != x;
      }
    }
  }

  /** Keeping only the entries other than `x` preserves the absence of duplicates. */
  lemma {:induction false} RemoveAllNoDup(s: seq<Id>, x: Id)
    requires NoDup(s)
    ensures NoDup(RemoveAll(s, x))
  {
    if |s| > 0 {
      assert NoDup(s[1..]);
      RemoveAllNoDup(s[1..], x);
      if s[0] != x {
        var rest := RemoveAll(s[1..], x);
        assert s[0] !in s[1..];
        assert multiset(s[1..])[s[0]] == 0;
        assert s[0] !in rest by {
          assert multiset(rest)[s[0]] == 0;
        }
        assert RemoveAll(s, x) == [s[0]] + rest;
      }
    }
  }

  /** Cutting one entry out of a list free of repeats leaves it free of repeats. */
  lemma SpliceNoDup(s: seq<Id>, i: int)
    requires NoDup(s) && 0 <= i < |s|
    ensures NoDup(s[..i] + s[i + 1..])
  {
    var r := s[..i] + s[i + 1..];
    forall a, b | 0 <= a < b < |r| ensures r[a] != r[b] {
      var a' := if a < i then a else a + 1;
      var b' := if b < i then b else b + 1;
      assert r[a] == s[a'] && r[b] == s[b'];
    }
  }

  /** Without duplicates, every value occurs at most once. */
  lemma {:induction false} NoDupCountAtMostOne(s: seq<Id>, y: Id)
    requires NoDup(s)
    ensures multiset(s)[y] <= 1
  {
    if |s| > 0 {
      assert s == [s[0]] + s[1..];
      NoDupCountAtMostOne(s[1..], y);
      if s[0] == y {
        assert y !in s[1..];
      }
    }
  }

  /** Strings compared character by character, a proper prefix first (`{ name: 1 }`). */
  predicate LexLe(a: string, b: string) {
    |a| == 0 || (|b| > 0 && (a[0] < b[0] || (a[0] == b[0] && LexLe(a[1..], b[1..]))))
  }

  lemma {:induction false} LexLeTotal(a: string, b: string)
    ensures LexLe(a, b) || LexLe(b, a)
  {
    if |a| > 0 && |b| > 0 && a[0] == b[0] {
      LexLeTotal(a[1..], b[1..]);
    }
  }

  lemma {:induction false} LexLeTransitive(a: string, b: string, c: string)
    requires LexLe(a, b) && LexLe(b, c)
    ensures LexLe(a, c)
  {
    if |a| > 0 && |b| > 0 && |c| > 0 && a[0] == b[0] && b[0] == c[0] {
      LexLeTransitive(a[1..], b[1..], c[1..]);
    }
  }

  lemma {:induction false} LexLeAntisymmetric(a: string, b: string)
    requires LexLe(a, b) && LexLe(b, a)
    ensures a == b
  {
    if |a| > 0 && |b| > 0 {
      LexLeAntisymmetric(a[1..], b[1..]);
      assert a == [a[0]] + a[1..] && b == [b[0]] + b[1..];
    }
  }
}
