/**
 * src/routes/admin.routes.js: paginated listings of users and exams, the exam statistics and
 * the guarded deletion of a user. Collections are sequences in their natural order.
 */
module AdminRoutes {
  import opened Wrappers
  import opened Text
  import opened UserModel

  const DefaultPage: int := 1
  const DefaultLimit: int := 10

  // ---------------------------------------------------------------------------
  // Pagination
  // ---------------------------------------------------------------------------

  /** `parseInt(raw) || fallback`: a missing or unparsable value (`None`) and zero both give the fallback. */
  function PageParam(raw: Option<int>, fallback: int): (r: int)
    ensures raw.None? || raw.value == 0 ==> r == fallback
    ensures raw.Some? && raw.value != 0 ==> r == raw.value
    ensures fallback != 0 ==> r != 0
  {
    if raw.None? || raw.value == 0 then fallback else raw.value
  }

  /** `(page - 1) * limit`: how many items earlier pages hold. */
  function Skip(page: int, limit: int): int {
    (page - 1) * limit
  }

  function Abs(x: int): nat {
    if x < 0 then -x else x
  }

  function Min(a: int, b: int): int {
    if a <= b then a else b
  }

  /** `Math.ceil(total / limit)` for a non-zero limit. */
  function CeilDiv(total: nat, limit: int): (r: int)
    requires limit != 0
    ensures limit > 0 ==> r >= 0
    ensures limit < 0 ==> r <= 0
  {
    if limit > 0 then (total + limit - 1) / limit else -(total / -limit)
  }

  /** With a positive limit, the page count is the least number of pages that hold every item. */
  lemma CeilDivBounds(total: nat, limit: int)
    requires limit > 0
    ensures CeilDiv(total, limit) * limit >= total
    ensures CeilDiv(total, limit) > 0 ==> (CeilDiv(total, limit) - 1) * limit < total
    ensures CeilDiv(total, limit) == 0 <==> total == 0
  {
    var r := CeilDiv(total, limit);
    var q, m := (total + limit - 1) / limit, (total + limit - 1) % limit;
    assert total + limit - 1 == q * limit + m;
  }

  /**
   * `.skip(skip).limit(limit)`: a negative skip is a query error (`None`); a negative limit
   * counts as its absolute value and a zero limit means no limit.
   */
  function Paginate<T>(items: seq<T>, skip: int, limit: int): (r: Option<seq<T>>)
    ensures r.None? <==> skip < 0
    ensures r.Some? && limit != 0 ==> |r.value| <= Abs(limit)
    ensures r.Some? ==> forall k :: 0 <= k < |r.value| ==> skip + k < |items| && r.value[k] == items[skip + k]
    ensures r.Some? && skip < |items| && limit != 0 ==> |r.value| == Min(Abs(limit), |items| - skip)
    ensures r.Some? && skip < |items| && limit == 0 ==> |r.value| == |items| - skip
    ensures r.Some? && skip >= |items| ==> r.value == []
  {
    if skip < 0 then None
    else if skip >= |items| then Some([])
    else if limit == 0 then Some(items[skip..])
    else Some(items[skip..Min(skip + Abs(limit), |items|)])
  }

  /** A listing response: one page of items, the collection size, the page number and the page count. */
  datatype Listing<T> = Listing(items: seq<T>, total: nat, page: int, totalPages: int)

  /** `GET /users` and `GET /exams`: `None` is the 500 answer of a failed query. */
  function ListPage<T>(all: seq<T>, rawPage: Option<int>, rawLimit: Option<int>): (r: Option<Listing<T>>)
    ensures r.None? <==> Skip(PageParam(rawPage, DefaultPage), PageParam(rawLimit, DefaultLimit)) < 0
    ensures r.Some? ==> r.value.total == |all| && r.value.page == PageParam(rawPage, DefaultPage)
    ensures r.Some? ==>
              var page, limit := PageParam(rawPage, DefaultPage), PageParam(rawLimit, DefaultLimit);
              && r.value.items == Paginate(all, Skip(page, limit), limit).value
              && r.value.totalPages == CeilDiv(|all|, limit)
              && (limit > 0 && Skip(page, limit) < |all| ==>
                    r.value.items == all[Skip(page, limit)..Min(Skip(page, limit) + limit, |all|)])
  {
    var page := PageParam(rawPage, DefaultPage);
    var limit := PageParam(rawLimit, DefaultLimit);
    match Paginate(all, Skip(page, limit), limit)
    case None => None
    case Some(items) => Some(Listing(items, |all|, page, CeilDiv(|all|, limit)))
  }

  /** Without query parameters the first ten items come back, on page 1 of `ceil(total / 10)`. */
  lemma ListPageDefaults<T>(all: seq<T>)
    ensures ListPage(all, None, None) ==
              Some(Listing(all[..Min(10, |all|)], |all|, 1, CeilDiv(|all|, 10)))
  {
    var r := Paginate(all, 0, 10);
    assert r.value == all[..Min(10, |all|)];
  }

  lemma MulMonotone(a: int, b: int, limit: int)
    requires a <= b && limit > 0
    ensures a * limit <= b * limit
  {
    assert b * limit - a * limit == (b - a) * limit;
  }

  /**
   * With a positive limit every item is listed: item `i` is at position `i % limit` of page
   * `i / limit + 1`, and that page is within the reported page count.
   */
  lemma EveryItemOnSomePage<T>(all: seq<T>, limit: int, i: nat)
    requires limit > 0 && i < |all|
    ensures var page := i / limit + 1;
            && 1 <= page <= CeilDiv(|all|, limit)
            && Paginate(all, Skip(page, limit), limit).Some?
            && i % limit < |Paginate(all, Skip(page, limit), limit).value|
            && Paginate(all, Skip(page, limit), limit).value[i % limit] == all[i]
  {
    var q, m := i / limit, i % limit;
    assert i == q * limit + m && 0 <= m < limit;
    assert Skip(q + 1, limit) == q * limit;
    PageWithinCount(|all|, limit, q, m);
    PageHolds(all, limit, q, m);
  }

  /** Position `m` of the page that skips `q` full pages holds item `q * limit + m`. */
  lemma PageHolds<T>(all: seq<T>, limit: int, q: nat, m: nat)
    requires limit > 0 && m < limit && q * limit + m < |all|
    ensures Paginate(all, q * limit, limit).Some?
    ensures m < |Paginate(all, q * limit, limit).value|
    ensures Paginate(all, q * limit, limit).value[m] == all[q * limit + m]
  {
    var skip := q * limit;
    assert 0 <= skip by {
      MulMonotone(0, q, limit);
    }
    var r := Paginate(all, skip, limit).value;
    assert |r| == Min(limit, |all| - skip);
    assert r[m] == all[skip + m];
  }

  /** The page of an item that exists is within the reported page count. */
  lemma PageWithinCount(total: nat, limit: int, q: nat, m: nat)
    requires limit > 0 && q * limit + m < total
    ensures q + 1 <= CeilDiv(total, limit)
  {
    var c := CeilDiv(total, limit);
    CeilDivBounds(total, limit);
    if c <= q {
      MulMonotone(c, q, limit);
    }
  }

  /** The user listing hides every password. */
  function PublicUsers(users: seq<UserRecord>): (r: seq<map<string, FieldValue>>)
    ensures |r| == |users|
    ensures forall i :: 0 <= i < |r| ==> r[i] == ToJson(users[i]) && "password" !in r[i]
  {
    seq(|users|, i requires 0 <= i < |users| => ToJson(users[i]))
  }

  // ---------------------------------------------------------------------------
  // Statistics
  // ---------------------------------------------------------------------------

  datatype Stats = Stats(totalExams: nat, avgScore: real, maxScore: real, minScore: real)

  function Sum(xs: seq<real>): real {
    if xs == [] then 0.0 else xs[0] + Sum(xs[1..])
  }

  function MaxOf(xs: seq<real>): (m: real)
    requires xs != []
    ensures m in xs && forall i :: 0 <= i < |xs| ==> xs[i] <= m
  {
    if |xs| == 1 then xs[0]
    else
      var rest := MaxOf(xs[1..]);
      assert forall i :: 1 <= i < |xs| ==> xs[i] == xs[1..][i - 1];
      if xs[0] >= rest then xs[0] else rest
  }

  function MinOf(xs: seq<real>): (m: real)
    requires xs != []
    ensures m in xs && forall i :: 0 <= i < |xs| ==> m <= xs[i]
  {
    if |xs| == 1 then xs[0]
    else
      var rest := MinOf(xs[1..]);
      assert forall i :: 1 <= i < |xs| ==> xs[i] == xs[1..][i - 1];
      if xs[0] <= rest then xs[0] else rest
  }

  /** The sum lies between `n` times the least and `n` times the greatest value. */
  lemma {:induction false} SumBetween(xs: seq<real>, lo: real, hi: real)
    requires forall i :: 0 <= i < |xs| ==> lo <= xs[i] <= hi
    ensures (|xs| as real) * lo <= Sum(xs) <= (|xs| as real) * hi
  {
    if xs != [] {
      assert forall i :: 0 <= i < |xs[1..]| ==> xs[1..][i] == xs[i + 1];
      SumBetween(xs[1..], lo, hi);
      var m := |xs[1..]| as real;
      assert |xs| as real == m + 1.0;
      assert (|xs| as real) * lo == m * lo + lo;
      assert (|xs| as real) * hi == m * hi + hi;
      assert Sum(xs) == xs[0] + Sum(xs[1..]);
    }
  }

  /** `$group` over the exams' scores; no exams means no statistics (404). */
  function ExamStats(scores: seq<real>): (r: Option<Stats>)
    ensures r.None? <==> scores == []
    ensures r.Some? ==> r.value.totalExams == |scores|
    ensures r.Some? ==> r.value.avgScore * (|scores| as real) == Sum(scores)
    ensures r.Some? ==> r.value.maxScore == MaxOf(scores) && r.value.minScore == MinOf(scores)
  {
    if scores == [] then None
    else Some(Stats(|scores|, Sum(scores) / (|scores| as real), MaxOf(scores), MinOf(scores)))
  }

  lemma AverageBetween(total: real, n: real, lo: real, hi: real)
    requires n > 0.0 && n * lo <= total <= n * hi
    ensures lo <= total / n <= hi
  {
    var a := total / n;
    assert a * n == total;
  }

  /** The reported maximum and minimum are scores, bound all the others, and bracket the average. */
  lemma ExamStatsBounds(scores: seq<real>)
    requires scores != []
    ensures var s := ExamStats(scores).value;
            && s.maxScore in scores && s.minScore in scores
            && (forall i :: 0 <= i < |scores| ==> s.minScore <= scores[i] <= s.maxScore)
            && s.minScore <= s.avgScore <= s.maxScore
  {
    var lo, hi, total, n := MinOf(scores), MaxOf(scores), Sum(scores), |scores| as real;
    assert ExamStats(scores).value == Stats(|scores|, total / n, hi, lo);
    SumBetween(scores, lo, hi);
    AverageBetween(total, n, lo, hi);
  }

  /** When every exam has the same score, that score is the reported average. */
  lemma AverageOfEqualScores(scores: seq<real>, c: real)
    requires scores != [] && forall i :: 0 <= i < |scores| ==> scores[i] == c
    ensures ExamStats(scores).value.avgScore == c
  {
    var n := |scores| as real;
    SumBetween(scores, c, c);
    assert Sum(scores) == n * c;
    var a := ExamStats(scores).value.avgScore;
    assert a * n == n * c;
  }

  // ---------------------------------------------------------------------------
  // Deleting a user
  // ---------------------------------------------------------------------------

  /** Removing one user keeps every other user findable. */
  lemma RemoveKeepsOthers(users: seq<UserRecord>, i: nat, id: UserId)
    requires i < |users| && users[i].id != id && FindById(users, id).Some?
    ensures FindById(users[..i] + users[i + 1..], id).Some?
  {
    var k := FindById(users, id).value;
    var r := users[..i] + users[i + 1..];
    var k' := if k < i then k else k - 1;
    assert r[k'] == users[k];
  }

  /**
   * `DELETE /users/:id`: a malformed id fails the exam query (500); a user some exam belongs to
   * is kept (400); an absent user gives 404; otherwise exactly that user is removed (200).
   * `examOwners` holds the `user` of every exam.
   */
  method DeleteUser(t: UserTable, examOwners: seq<UserId>, id: string) returns (status: int, deleted: Option<UserRecord>)
    requires t.Valid()
    modifies t
    ensures t.Valid()
    ensures !IsValidObjectId(id) ==> status == 500
    ensures IsValidObjectId(id) && ToLower(id) in examOwners ==> status == 400
    ensures IsValidObjectId(id) && ToLower(id) !in examOwners && FindById(old(t.users), ToLower(id)).None? ==>
              status == 404
    ensures IsValidObjectId(id) && ToLower(id) !in examOwners && FindById(old(t.users), ToLower(id)).Some? ==>
              var i := FindById(old(t.users), ToLower(id)).value;
              status == 200 && deleted == Some(old(t.users)[i]) && t.users == old(t.users)[..i] + old(t.users)[i + 1..]
    ensures status != 200 ==> t.users == old(t.users) && deleted.None?
    ensures (forall o :: o in examOwners ==> FindById(old(t.users), o).Some?) ==>
              forall o :: o in examOwners ==> FindById(t.users, o).Some?
  {
    if !IsValidObjectId(id) {
      return 500, None;
    }
    var key := ToLower(id);
    if key in examOwners {
      return 400, None;
    }
    ghost var before := t.users;
    deleted := t.Remove(key);
    if deleted.None? {
      return 404, None;
    }
    forall o | o in examOwners && FindById(before, o).Some?
      ensures FindById(t.users, o).Some?
    {
      RemoveKeepsOthers(before, FindById(before, key).value, o);
    }
    status := 200;
  }
}
