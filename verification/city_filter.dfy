/**
  The city search: the filtered list holds, in their original order, the
  users whose city contains the search string, ignoring the case of ASCII
  letters.
 */
module CityFilter {
  import opened Text
  import opened Sequences
  import opened Users

  /** The predicate `users.filter` applies: the lower-cased city includes
      the lower-cased search string. */
  predicate CityMatches(u: User, searchCity: string): (m: bool)
    ensures searchCity == "" ==> m
    ensures m ==> |searchCity| <= |u.city|
  {
    ContainsEmpty(ToLower(u.city));
    ContainsNoLonger(ToLower(u.city), ToLower(searchCity));
    Contains(ToLower(u.city), ToLower(searchCity))
  }

  /** `users.filter(...)` with the city predicate. The result is a
      subsequence of `users`, and each user occurs in it exactly as often as
      in `users` when its city matches and not at all otherwise. */
  function FilterByCity(users: seq<User>, searchCity: string): (r: seq<User>)
    ensures IsSubsequence(r, users)
    ensures forall u :: multiset(r)[u] == if CityMatches(u, searchCity) then multiset(users)[u] else 0
  {
    if users == [] then []
    else
      assert users == [users[0]] + users[1..];
      if CityMatches(users[0], searchCity) then [users[0]] + FilterByCity(users[1..], searchCity)
      else FilterByCity(users[1..], searchCity)
  }

  /** A user is in the filtered list exactly when it is in `users` and its
      city matches. */
  lemma FilterMembership(users: seq<User>, searchCity: string, u: User)
    ensures u in FilterByCity(users, searchCity) <==> u in users && CityMatches(u, searchCity)
  {
    var r := FilterByCity(users, searchCity);
    assert u in r <==> multiset(r)[u] > 0;
    assert u in users <==> multiset(users)[u] > 0;
  }

  /** The empty search string keeps every user, in order. */
  lemma {:induction false} FilterEmptySearchKeepsAll(users: seq<User>)
    ensures FilterByCity(users, "") == users
  {
    if users != [] {
      ContainsEmpty(ToLower(users[0].city));
      FilterEmptySearchKeepsAll(users[1..]);
    }
  }

  /** The search ignores ASCII case: two search strings that differ only in
      the case of ASCII letters select the same users. */
  lemma FilterIgnoresCase(users: seq<User>, s: string, t: string)
    requires |s| == |t|
    requires forall i :: 0 <= i < |s| ==> LowerChar(s[i]) == LowerChar(t[i])
    ensures FilterByCity(users, s) == FilterByCity(users, t)
  {
    ToLowerIgnoresCase(s, t);
    FilterSameLowered(users, s, t);
  }

  /** Search strings with the same lower-cased form select the same users. */
  lemma {:induction false} FilterSameLowered(users: seq<User>, s: string, t: string)
    requires ToLower(s) == ToLower(t)
    ensures FilterByCity(users, s) == FilterByCity(users, t)
  {
    if users != [] {
      FilterSameLowered(users[1..], s, t);
    }
  }
}
