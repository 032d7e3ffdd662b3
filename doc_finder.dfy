/** BasicDocFinder.find, both versions: which part of the sorted result set
    a request for the documents from..to (both inclusive, either one
    optional) retrieves, when the request is refused as too large, and what
    count is returned. The database is the sequence of matching documents
    in sort order. */
module DocFinder {
  import opened Values

  const ERR_TOO_MANY_RESULTS: string := "mongo-crud:TooManyResults"

  /** The limit the older finder allows. */
  const MAX_RESULTS: int := 10000

  /** What find returns: the count it reports and the documents it hands
      to the context. */
  datatype Found = Found(count: int, docs: seq<Value>)

  // ---------------------------------------------------------------------------
  // The cursor
  // ---------------------------------------------------------------------------

  /** Where a skip of n leaves a cursor over len documents. */
  function SkipTo(len: nat, n: int): (s: nat)
    ensures s <= len
    ensures 0 <= n <= len ==> s == n
    ensures n > len ==> s == len
  {
    if n < 0 then 0 else if n > len then len else n
  }

  /** DBCursor.skip(skip).limit(limit): the documents after the first skip;
      a limit of 0 sets no limit and a negative limit -n allows n. */
  function Cursor(docs: seq<Value>, skip: int, limit: int): (r: seq<Value>)
    ensures limit == 0 ==> r == docs[SkipTo(|docs|, skip)..]
    ensures limit != 0 ==> |r| <= (if limit < 0 then -limit else limit)
    ensures SkipTo(|docs|, skip) + |r| <= |docs|
    ensures r == docs[SkipTo(|docs|, skip)..SkipTo(|docs|, skip) + |r|]
  {
    var rest := docs[SkipTo(|docs|, skip)..];
    var n := if limit < 0 then -limit else limit;
    if n == 0 || n >= |rest| then rest else rest[..n]
  }

  /** The documents from..to, both inclusive. */
  function Slice(docs: seq<Value>, from: nat, to: int): seq<Value>
    requires from <= to + 1
  {
    docs[SkipTo(|docs|, from)..SkipTo(|docs|, to + 1)]
  }

  // ---------------------------------------------------------------------------
  // The newer finder
  // ---------------------------------------------------------------------------

  /** The local variables of find after the limits are applied: the skip f,
      the number nRetrieve checked against the limit, whether the result is
      empty, and the cursor limit (0 when none is set). */
  datatype Plan = Plan(f: int, nRetrieve: int, empty: bool, limit: int)

  /** The limits of find(ctx, coll, query, projection, sort, from, to), with
      counting for ctx.isComputeMatchCount() and numMatched the count (0
      when not counting). With fixed = false the counted case retrieves
      numMatched - f + 1 documents once to > numMatched, as written;
      fixed = true retrieves the numMatched - f documents that remain once
      to >= numMatched. */
  function Limits(from: Option<int>, to: Option<int>, counting: bool, numMatched: int, fixed: bool): (p: Plan)
    ensures p.f >= 0 && (from.Some? && from.value >= 0 ==> p.f == from.value)
    ensures p.empty <==> to.Some? && to.value < p.f
    ensures !counting && to.None? ==> p.nRetrieve == 0
  {
    var f := if from.None? || from.value < 0 then 0 else from.value;
    var rest := if fixed then numMatched - f else numMatched - f + 1;
    if to.Some? then
      if to.value < f then Plan(f, 0, true, 0)
      else
        var past := if fixed then to.value >= numMatched else to.value > numMatched;
        var n := if counting && past then rest else to.value - f + 1;
        Plan(f, n, false, n)
    else Plan(f, if counting then rest else 0, false, 0)
  }

  /** find(ctx, coll, query, projection, sort, from, to) over the matching
      documents in sort order; maxResultSetSize is the configured limit. */
  function Find(matched: seq<Value>, from: Option<int>, to: Option<int>, counting: bool, maxResultSetSize: int, fixed: bool): (r: Result<Found>)
    ensures r.Fail? ==> r == Fail(Error(ERR_TOO_MANY_RESULTS))
    ensures r.Ok? ==> r.value.count == (if counting then |matched| else 0)
  {
    var numMatched := if counting then |matched| else 0;
    var p := Limits(from, to, counting, numMatched, fixed);
    if p.empty then Ok(Found(numMatched, []))
    else if counting && maxResultSetSize > 0 && p.nRetrieve > maxResultSetSize then
      Fail(Error(ERR_TOO_MANY_RESULTS))
    else Ok(Found(numMatched, Cursor(matched, p.f, p.limit)))
  }

  /** The documents retrieved are those from max(from, 0) up to to,
      inclusive, or up to the end when to is missing; to below from
      retrieves nothing; the returned count is the number of matches
      whatever the window, and 0 when not counting. */
  lemma FindWindow(matched: seq<Value>, from: Option<int>, to: Option<int>, counting: bool, max: int, fixed: bool)
    requires Find(matched, from, to, counting, max, fixed).Ok?
    ensures var f := if from.None? || from.value < 0 then 0 else from.value;
      var r := Find(matched, from, to, counting, max, fixed).value;
      r.count == (if counting then |matched| else 0) &&
      (to.Some? && to.value < f ==> r.docs == []) &&
      (to.Some? && to.value >= f ==> r.docs == Slice(matched, f, to.value)) &&
      (to.None? ==> r.docs == matched[SkipTo(|matched|, f)..])
  {
    var f := if from.None? || from.value < 0 then 0 else from.value;
    var N := |matched|;
    var p := Limits(from, to, counting, if counting then N else 0, fixed);
    if to.Some? && to.value >= f {
      var s := SkipTo(N, f);
      var e := SkipTo(N, to.value + 1);
      var got := Cursor(matched, f, p.limit);
      if counting && (if fixed then to.value >= N else to.value > N) {
        assert e == N;
        assert got == matched[s..] by {
          if f <= N {
            assert p.limit >= |matched[s..]| || p.limit == 0;
          } else {
            assert |matched[s..]| == 0;
          }
        }
      } else {
        assert p.limit == to.value - f + 1 && p.limit > 0;
        if to.value + 1 <= N {
          assert |matched[s..]| >= p.limit;
        }
      }
    }
  }

  /** A request is refused exactly when it is not empty, the matches are
      counted, a limit is configured, and the planned number exceeds it. */
  lemma TooManyResults(matched: seq<Value>, from: Option<int>, to: Option<int>, counting: bool, max: int, fixed: bool)
    ensures var p := Limits(from, to, counting, if counting then |matched| else 0, fixed);
      Find(matched, from, to, counting, max, fixed).Fail? <==>
      !p.empty && counting && max > 0 && p.nRetrieve > max
  {
  }

  /** Without counting, or without a limit, no request is refused. */
  lemma NoLimitNoRefusal(matched: seq<Value>, from: Option<int>, to: Option<int>, counting: bool, max: int, fixed: bool)
    requires !counting || max <= 0
    ensures Find(matched, from, to, counting, max, fixed).Ok?
  {
  }

  /** Finding: with the limit at 10 and 10 matching documents, a request
      for all of them is refused, since the planned number counts one
      document past the end. */
  lemma ExactFitRefused()
    ensures var ten := seq(10, i => Num(i));
      Find(ten, Some(0), None, true, 10, false) == Fail(Error(ERR_TOO_MANY_RESULTS)) &&
      |Find(ten, Some(0), None, true, 10, true).value.docs| == 10
  {
  }

  /** With the corrected count, a counted request with a limit is refused
      exactly when the documents it would retrieve outnumber the limit. */
  lemma RefusedIffTooMany(matched: seq<Value>, from: Option<int>, to: Option<int>, max: int)
    requires max > 0
    ensures var f := if from.None? || from.value < 0 then 0 else from.value;
      var want := if to.None? then matched[SkipTo(|matched|, f)..]
                  else if to.value < f then []
                  else Slice(matched, f, to.value);
      Find(matched, from, to, true, max, true).Fail? <==> |want| > max
  {
    var f := if from.None? || from.value < 0 then 0 else from.value;
    var N := |matched|;
    var p := Limits(from, to, true, N, true);
    if Find(matched, from, to, true, max, true).Ok? {
      FindWindow(matched, from, to, true, max, true);
    } else if to.None? {
      assert |matched[SkipTo(N, f)..]| == N - f;
    } else if to.value >= N {
      assert |Slice(matched, f, to.value)| == N - f;
    } else {
      assert |Slice(matched, f, to.value)| == to.value + 1 - f;
    }
  }

  // ---------------------------------------------------------------------------
  // The older finder
  // ---------------------------------------------------------------------------

  /** The skip, the limit and realn of the older find: a from above to
      skips the whole result; a negative to skips the whole result and
      retrieves 0; a non-negative to limits to to - from + 1 (from null
      read as 0); a missing to retrieves size - realFrom. */
  datatype OldPlan = OldPlan(skip: int, limit: int, realn: int)

  function OldLimits(size: nat, from: Option<int>, to: Option<int>): (p: OldPlan)
    ensures to.Some? && to.value < 0 ==> p.realn == 0 && p.skip == size
    ensures from.Some? && to.Some? && from.value > to.value ==> p.skip == size
    ensures to.Some? && to.value >= 0 ==> p.realn == p.limit == to.value - (if from.None? then 0 else from.value) + 1
  {
    var realFrom := if from.None? then 0
                    else if to.Some? && from.value > to.value then size
                    else from.value;
    var skip := if to.Some? && to.value < 0 then size
                else if from.None? then 0 else realFrom;
    if to.Some? then
      if to.value >= 0 then
        var n := to.value - (if from.None? then 0 else from.value) + 1;
        OldPlan(skip, n, n)
      else OldPlan(skip, 0, 0)
    else OldPlan(skip, 0, size - realFrom)
  }

  /** find(ctx, coll, query, projection, sort, from, to) of the older
      finder, which always returns the size of the result set. */
  function OldFind(matched: seq<Value>, from: Option<int>, to: Option<int>): (r: Result<Found>)
    ensures r.Fail? <==> OldLimits(|matched|, from, to).realn > MAX_RESULTS
    ensures r.Fail? ==> r == Fail(Error(ERR_TOO_MANY_RESULTS))
    ensures r.Ok? ==> r.value.count == |matched|
  {
    var p := OldLimits(|matched|, from, to);
    if p.realn > MAX_RESULTS then Fail(Error(ERR_TOO_MANY_RESULTS))
    else Ok(Found(|matched|, Cursor(matched, p.skip, p.limit)))
  }

  /** The documents the older finder retrieves: from..to inclusive for a
      non-negative from up to a non-negative to, nothing when from is above
      to or to is negative, and everything from from on when to is
      missing. */
  lemma OldFindWindow(matched: seq<Value>, from: Option<int>, to: Option<int>)
    requires OldFind(matched, from, to).Ok?
    requires from.None? || from.value >= 0
    ensures var f := if from.None? then 0 else from.value;
      var docs := OldFind(matched, from, to).value.docs;
      (to.Some? && (to.value < 0 || f > to.value) ==> docs == []) &&
      (to.Some? && 0 <= f <= to.value ==> docs == Slice(matched, f, to.value)) &&
      (to.None? ==> docs == matched[SkipTo(|matched|, f)..])
  {
    var f := if from.None? then 0 else from.value;
    var N := |matched|;
    var p := OldLimits(N, from, to);
    if to.Some? && 0 <= f <= to.value {
      var s := SkipTo(N, f);
      assert p.skip == f && p.limit == to.value - f + 1;
      if to.value + 1 <= N {
        assert |matched[s..]| >= p.limit;
      }
    }
  }

  /** The older cap is on the size of the window asked for, not on what the
      result holds: an empty collection refuses from 0 to 10000, and a
      collection of 10001 documents refuses a request without limits. */
  lemma OldCapOnRequest()
    ensures OldFind([], Some(0), Some(10000)).Fail?
    ensures OldFind(seq(10001, i => Null), None, None).Fail?
    ensures OldFind(seq(10001, i => Null), Some(1), None).Ok?
  {
  }
}
