/** `GET /api/users/:_id/logs`: look the user up, build the date-range
    query, run it with the coerced limit and report the result. */
module Logs {
  import opened Optional
  import opened Records
  import opened Responses

  /** The `limit` query parameter as the handler sees it. */
  datatype LimitArg = Omitted | NotANumber | Number(n: nat)

  /** `Number(limit) || 0`: a missing or non-numeric limit is NaN, which is
      falsy, and so is 0; all three mean "no cap". */
  function EffectiveLimit(limit: LimitArg): (n: nat)
    ensures n == 0 <==> !(limit.Number? && limit.n > 0)
    ensures limit.Number? && limit.n > 0 ==> n == limit.n
  {
    match limit
    case Number(k) => k
    case _ => 0
  }

  /** The query document `{ userId, date: { $gte: from, $lte: to } }`, where
      a missing `from` or `to` leaves that bound out. */
  datatype Query = Query(userId: Id, gte: Option<Timestamp>, lte: Option<Timestamp>)

  predicate Matches(q: Query, e: Exercise) {
    && e.userId == q.userId
    && (q.gte.Some? ==> e.date >= q.gte.value)
    && (q.lte.Some? ==> e.date <= q.lte.value)
  }

  /** `Exercise.find(query)`: the matching documents, in the order the
      collection holds them (taken here to be insertion order). */
  function Find(exs: seq<Exercise>, q: Query): (r: seq<Exercise>)
    ensures |r| <= |exs|
    ensures forall e :: e in r ==> e in exs && Matches(q, e)
    ensures forall e :: e in exs && Matches(q, e) ==> e in r
  {
    if |exs| == 0 then []
    else if Matches(q, exs[0]) then [exs[0]] + Find(exs[1..], q)
    else Find(exs[1..], q)
  }

  /** A cursor's `.limit(n)`: the first `n` results, where 0 means no cap. */
  function Limit<T>(s: seq<T>, n: nat): (r: seq<T>)
    ensures r <= s
    ensures n == 0 ==> r == s
    ensures n > 0 ==> |r| == if n < |s| then n else |s|
  {
    if n == 0 || |s| <= n then s else s[..n]
  }

  /** The handler. An unknown user is a 404. Otherwise the log holds the
      user's exercises within the inclusive range, capped by the limit, and
      `count` is the size of that returned log. Nothing is ever written. */
  function GetLog(st: Store, userId: Id, from: Option<Timestamp>, to: Option<Timestamp>,
                  limit: LimitArg): (r: (Response, Store))
    ensures r.1 == st
    ensures r.0.Error? || r.0.Log?
    ensures r.0.Error? <==> FindUser(st.users, userId).None?
    ensures r.0.Error? ==> r.0 == Error(NotFound, UserNotFound)
    ensures r.0.Log? ==>
              && r.0.count == |r.0.log|
              && r.0.id == userId
              && r.0.username == FindUser(st.users, userId).value.username
              && r.0.log == Entries(Limit(Find(st.exercises, Query(userId, from, to)), EffectiveLimit(limit)))
    ensures r.0.Log? ==>
              forall k :: 0 <= k < |r.0.log| ==>
                exists e :: e in st.exercises && Matches(Query(userId, from, to), e) && r.0.log[k] == ToEntry(e)
  {
    match FindUser(st.users, userId)
    case None => (Error(NotFound, UserNotFound), st)
    case Some(user) =>
      var found := Limit(Find(st.exercises, Query(userId, from, to)), EffectiveLimit(limit));
      assert forall k :: 0 <= k < |found| ==> found[k] in Find(st.exercises, Query(userId, from, to));
      (Log(user.username, |found|, userId, Entries(found)), st)
  }

  /** Finding over a concatenation finds over each part, in order. */
  lemma {:induction false} FindConcat(a: seq<Exercise>, b: seq<Exercise>, q: Query)
    ensures Find(a + b, q) == Find(a, q) + Find(b, q)
  {
    if |a| == 0 {
      assert a + b == b;
    } else {
      assert (a + b)[1..] == a[1..] + b;
      FindConcat(a[1..], b, q);
    }
  }

  /** One more stored exercise extends the query result by itself exactly
      when it matches. */
  lemma FindAppend(exs: seq<Exercise>, e: Exercise, q: Query)
    ensures Find(exs + [e], q) == Find(exs, q) + (if Matches(q, e) then [e] else [])
  {
    FindConcat(exs, [e], q);
    assert [e][1..] == [];
  }

  /** The store's side of `find(query).limit(n)`: scan the collection in
      natural order and stop as soon as `n` matches are in hand (never, when
      `n` is 0). It returns exactly the capped query result. */
  method RunQuery(exs: seq<Exercise>, q: Query, n: nat) returns (found: seq<Exercise>)
    ensures found == Limit(Find(exs, q), n)
  {
    found := [];
    var i := 0;
    while i < |exs| && (n == 0 || |found| < n)
      invariant 0 <= i <= |exs|
      invariant found == Find(exs[..i], q)
      invariant n > 0 ==> |found| <= n
    {
      assert exs[..i + 1] == exs[..i] + [exs[i]];
      FindAppend(exs[..i], exs[i], q);
      if Matches(q, exs[i]) {
        found := found + [exs[i]];
      }
      i := i + 1;
    }
    ScanStopped(exs, i, q, n, found);
  }

  /** When the scan stops, after the whole collection or after `n` matches,
      what it holds is the capped query result. */
  lemma ScanStopped(exs: seq<Exercise>, i: nat, q: Query, n: nat, found: seq<Exercise>)
    requires i <= |exs|
    requires found == Find(exs[..i], q)
    requires n > 0 ==> |found| <= n
    requires i == |exs| || (n > 0 && |found| == n)
    ensures found == Limit(Find(exs, q), n)
  {
    assert exs[..i] + exs[i..] == exs;
    FindConcat(exs[..i], exs[i..], q);
    if i == |exs| {
      assert exs[i..] == [];
    } else {
      LimitOfFullPrefix(found, Find(exs[i..], q), n);
    }
  }

  /** Capping at the length of a prefix returns that prefix. */
  lemma LimitOfFullPrefix<T>(s: seq<T>, t: seq<T>, n: nat)
    requires 0 < n == |s|
    ensures Limit(s + t, n) == s
  {
    assert (s + t)[..n] == s;
  }

  /** The "0 means no cap" quirk: with no effective limit the log is every
      matching exercise; with limit `n > 0` it is the first `min(n, m)` of
      the `m` matching exercises, in store order. */
  lemma LimitSemantics(st: Store, userId: Id, from: Option<Timestamp>, to: Option<Timestamp>, limit: LimitArg)
    requires FindUser(st.users, userId).Some?
    ensures var resp := GetLog(st, userId, from, to, limit).0;
            var matching := Find(st.exercises, Query(userId, from, to));
            && resp.Log?
            && (EffectiveLimit(limit) == 0 ==> resp.log == Entries(matching))
            && (EffectiveLimit(limit) > 0 ==>
                  var m := if EffectiveLimit(limit) < |matching| then EffectiveLimit(limit) else |matching|;
                  resp.log == Entries(matching[..m]) && resp.count == m)
  {
  }

  /** With neither bound and no cap, every exercise of the user is in the log. */
  lemma {:induction false} UnboundedLogIsComplete(st: Store, userId: Id, limit: LimitArg)
    requires FindUser(st.users, userId).Some?
    requires EffectiveLimit(limit) == 0
    ensures var resp := GetLog(st, userId, None, None, limit).0;
            forall e :: e in st.exercises && e.userId == userId ==> ToEntry(e) in resp.log
  {
    var resp := GetLog(st, userId, None, None, limit).0;
    var found := Find(st.exercises, Query(userId, None, None));
    forall e | e in st.exercises && e.userId == userId
      ensures ToEntry(e) in resp.log
    {
      assert Matches(Query(userId, None, None), e);
      var k :| 0 <= k < |found| && found[k] == e;
      assert resp.log[k] == ToEntry(e);
    }
  }

  /** An inclusive range that covers every date of the user's exercises
      selects the same exercises as no range at all. */
  lemma {:induction false} CoveringRangeFindsAll(exs: seq<Exercise>, userId: Id, lo: Timestamp, hi: Timestamp)
    requires forall e :: e in exs && e.userId == userId ==> lo <= e.date <= hi
    ensures Find(exs, Query(userId, Some(lo), Some(hi))) == Find(exs, Query(userId, None, None))
  {
    if |exs| > 0 {
      assert exs[0] in exs;
      CoveringRangeFindsAll(exs[1..], userId, lo, hi);
    }
  }
}
