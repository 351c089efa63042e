/** The `loader` of app/routes/dashboard.tsx: require a signed-in user, then
    list that user's license keys newest first. The loader only reads the
    store, so it is a function of it. */
module Dashboard {
  import opened Records
  import opened Tables
  import opened AuthServer

  /** The columns the query selects: `id, licenseKey, isActive, createdAt`. */
  datatype KeySummary = KeySummary(id: int, licenseKey: string, isActive: bool, createdAt: string)

  /** The loader's result: the redirect `requireUser` throws, or the page data
      `{ user, licenseKeys, error? }`. */
  datatype Result = LoginRedirect(redirect: Redirect) | Page(user: SessionUser, licenseKeys: seq<KeySummary>, error: Option<string>)

  const LoadFailed := "Failed to load license keys."

  /** `a <= b` in SQLite's BINARY collation: code point by code point, and a
      prefix sorts first. */
  predicate TextLe(a: string, b: string) {
    |a| == 0 || (|b| > 0 && (a[0] < b[0] || (a[0] == b[0] && TextLe(a[1..], b[1..]))))
  }

  lemma {:induction false} TextLeTotal(a: string, b: string)
    ensures TextLe(a, b) || TextLe(b, a)
  {
    if |a| > 0 && |b| > 0 && a[0] == b[0] {
      TextLeTotal(a[1..], b[1..]);
    }
  }

  lemma {:induction false} TextLeTransitive(a: string, b: string, c: string)
    requires TextLe(a, b) && TextLe(b, c)
    ensures TextLe(a, c)
  {
    if |a| > 0 && |b| > 0 && |c| > 0 && a[0] == b[0] && b[0] == c[0] {
      TextLeTransitive(a[1..], b[1..], c[1..]);
    }
  }

  function Summary(k: LicenseKey): KeySummary {
    KeySummary(k.id, k.licenseKey, k.isActive, k.createdAt)
  }

  /** The positions of the rows owned by `userId` whose summary is `s`. */
  ghost function RowsWith(keys: seq<LicenseKey>, userId: int, s: KeySummary): set<int> {
    set i | 0 <= i < |keys| && keys[i].userId == userId && Summary(keys[i]) == s
  }

  ghost function Shift(xs: set<int>): set<int> {
    set i | i in xs :: i + 1
  }

  lemma InShift(xs: set<int>, y: int)
    ensures y in Shift(xs) <==> y - 1 in xs
  {
  }

  /** Adding one to every element keeps the number of elements. */
  lemma ShiftKeepsSize(xs: set<int>)
    decreases |xs|
    ensures |Shift(xs)| == |xs|
  {
    if xs != {} {
      // a non-empty set has an element
      if forall x :: x !in xs {
        assert false;
      }
      var x :| x in xs;
      var rest := xs - {x};
      ShiftKeepsSize(rest);
      forall y ensures y in Shift(xs) <==> y in Shift(rest) + {x + 1} {
        InShift(xs, y);
        InShift(rest, y);
      }
      assert Shift(xs) == Shift(rest) + {x + 1};
      InShift(rest, x + 1);
    }
  }

  /** Past the first row, the owned rows of a table are those of its tail,
      one position further on. */
  lemma RowsWithTail(keys: seq<LicenseKey>, userId: int, s: KeySummary)
    requires |keys| > 0
    ensures RowsWith(keys, userId, s) - {0} == Shift(RowsWith(keys[1..], userId, s))
  {
    var tail := RowsWith(keys[1..], userId, s);
    forall i ensures i in RowsWith(keys, userId, s) - {0} <==> i in Shift(tail) {
      InShift(tail, i);
      if 0 < i < |keys| { assert keys[1..][i - 1] == keys[i]; }
    }
  }

  /** The owned rows of a table are its first row, when it qualifies, and
      the owned rows of the rest. */
  lemma RowsWithCons(keys: seq<LicenseKey>, userId: int, s: KeySummary)
    requires |keys| > 0
    ensures |RowsWith(keys, userId, s)| ==
            (if keys[0].userId == userId && Summary(keys[0]) == s then 1 else 0) + |RowsWith(keys[1..], userId, s)|
  {
    var all := RowsWith(keys, userId, s);
    RowsWithTail(keys, userId, s);
    ShiftKeepsSize(RowsWith(keys[1..], userId, s));
    if keys[0].userId == userId && Summary(keys[0]) == s {
      assert all == (all - {0}) + {0};
    } else {
      assert all == all - {0};
    }
  }

  /** `WHERE userId = ?`: the user's rows, in table order, cut down to the
      selected columns. Each summary occurs as often as there are owned rows
      with it. */
  function OwnedBy(keys: seq<LicenseKey>, userId: int): (r: seq<KeySummary>)
    ensures forall s :: multiset(r)[s] == |RowsWith(keys, userId, s)|
    ensures forall s :: s in r <==> exists i :: 0 <= i < |keys| && keys[i].userId == userId && Summary(keys[i]) == s
  {
    if |keys| == 0 then []
    else
      var rest := OwnedBy(keys[1..], userId);
      assert forall i :: 0 < i < |keys| ==> keys[i] == keys[1..][i - 1];
      var r := if keys[0].userId == userId then [Summary(keys[0])] + rest else rest;
      assert forall s :: multiset(r)[s] == |RowsWith(keys, userId, s)| by {
        forall s ensures multiset(r)[s] == |RowsWith(keys, userId, s)| {
          RowsWithCons(keys, userId, s);
        }
      }
      r
  }

  /** Newest first: no key is created later than one before it. */
  predicate NewestFirst(s: seq<KeySummary>) {
    forall i, j :: 0 <= i < j < |s| ==> TextLe(s[j].createdAt, s[i].createdAt)
  }

  /** A key not newer than any key of a newest-first list can go in front. */
  lemma ConsNewestFirst(h: KeySummary, s: seq<KeySummary>)
    requires NewestFirst(s)
    requires forall x :: 0 <= x < |s| ==> TextLe(s[x].createdAt, h.createdAt)
    ensures NewestFirst([h] + s)
  {
  }

  /** Every key of a list that holds the keys of `s` and `k` is bounded by
      `top` when all of those are. */
  lemma BoundedThroughMultiset(r: seq<KeySummary>, s: seq<KeySummary>, k: KeySummary, top: string)
    requires multiset(r) == multiset(s) + multiset{k}
    requires forall x :: 0 <= x < |s| ==> TextLe(s[x].createdAt, top)
    requires TextLe(k.createdAt, top)
    ensures forall x :: 0 <= x < |r| ==> TextLe(r[x].createdAt, top)
  {
    forall x | 0 <= x < |r|
      ensures TextLe(r[x].createdAt, top)
    {
      assert r[x] in multiset(r);
      if r[x] != k {
        assert r[x] in multiset(s);
        var m :| 0 <= m < |s| && s[m] == r[x];
      }
    }
  }

  /** Puts `k` in front of the first key that is not newer than it. */
  function Insert(k: KeySummary, s: seq<KeySummary>): (r: seq<KeySummary>)
    requires NewestFirst(s)
    ensures NewestFirst(r)
    ensures multiset(r) == multiset(s) + multiset{k}
  {
    if |s| == 0 then [k]
    else if TextLe(s[0].createdAt, k.createdAt) then
      forall x | 0 <= x < |s|
        ensures TextLe(s[x].createdAt, k.createdAt)
      {
        if x > 0 { TextLeTransitive(s[x].createdAt, s[0].createdAt, k.createdAt); }
      }
      ConsNewestFirst(k, s);
      [k] + s
    else
      var tail := s[1..];
      assert NewestFirst(tail) by {
        forall i, j | 0 <= i < j < |tail| ensures TextLe(tail[j].createdAt, tail[i].createdAt) {
          assert tail[i] == s[i + 1] && tail[j] == s[j + 1];
        }
      }
      assert forall x :: 0 <= x < |tail| ==> TextLe(tail[x].createdAt, s[0].createdAt) by {
        forall x | 0 <= x < |tail| ensures TextLe(tail[x].createdAt, s[0].createdAt) {
          assert tail[x] == s[x + 1];
        }
      }
      var rest := Insert(k, tail);
      TextLeTotal(s[0].createdAt, k.createdAt);
      BoundedThroughMultiset(rest, tail, k, s[0].createdAt);
      ConsNewestFirst(s[0], rest);
      assert s == [s[0]] + tail;
      [s[0]] + rest
  }

  /** `ORDER BY createdAt DESC`: the same keys, newest first. */
  function SortNewestFirst(s: seq<KeySummary>): (r: seq<KeySummary>)
    ensures NewestFirst(r)
    ensures multiset(r) == multiset(s)
  {
    if |s| == 0 then []
    else
      assert s == [s[0]] + s[1..];
      Insert(s[0], SortNewestFirst(s[1..]))
  }

  /** The loader. Without a session user it redirects before any query; with
      one it returns exactly that user's keys, newest first, or an empty
      list and an error when the query fails. */
  function Loader(store: Store, cookie: SessionData, pathname: string, queryFails: bool): (r: Result)
    reads store
    ensures r.LoginRedirect? <==> GetUserFromSession(cookie).None?
    ensures r.LoginRedirect? ==> r.redirect == RequireUser(cookie, pathname).redirect
    ensures r.Page? ==> Some(r.user) == GetUserFromSession(cookie)
    ensures r.Page? && queryFails ==> r.licenseKeys == [] && r.error == Some(LoadFailed)
    ensures r.Page? && !queryFails ==>
              && r.error == None
              && NewestFirst(r.licenseKeys)
              && multiset(r.licenseKeys) == multiset(OwnedBy(store.licenseKeys, r.user.id))
              && (forall s :: multiset(r.licenseKeys)[s] == |RowsWith(store.licenseKeys, r.user.id, s)|)
              && forall s :: s in r.licenseKeys <==>
                   exists i :: 0 <= i < |store.licenseKeys| && store.licenseKeys[i].userId == r.user.id &&
                               Summary(store.licenseKeys[i]) == s
  {
    match RequireUser(cookie, pathname)
    case Denied(redirect) => LoginRedirect(redirect)
    case Allowed(user) =>
      if queryFails then Page(user, [], Some(LoadFailed))
      else
        var keys := SortNewestFirst(OwnedBy(store.licenseKeys, user.id));
        assert forall s :: s in keys <==> s in OwnedBy(store.licenseKeys, user.id) by {
          forall s ensures s in keys <==> s in OwnedBy(store.licenseKeys, user.id) {
            assert s in keys <==> s in multiset(keys);
          }
        }
        Page(user, keys, None)
  }
}
