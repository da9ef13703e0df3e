/** The release catalog of distinfo.py: distributions, their releases, the lifecycle of a
    release on a given day, the filtered and sorted release queries, the loading of a
    distro-info table, and the Debian suite labelling. */
module Catalog {
  import opened Wrappers

  // ------------------------------------------------------------------------------------
  // Dates

  /** Ordinal of date.max (9999-12-31) in the proleptic Gregorian calendar, day 1 being
      0001-01-01. */
  const MaxOrdinal: int := 3652059

  /** A calendar date, given by its ordinal. */
  type Date = d: int | 1 <= d <= MaxOrdinal witness 1

  /** date.max: the default release date and end-of-life date of a release. */
  const MaxDate: Date := MaxOrdinal

  // ------------------------------------------------------------------------------------
  // Releases

  /** One release of a distribution (ReleaseInfo). `distrib` is the id of the owning
      distribution, which is what DistInfo.uid() gives; the optional attributes are None when
      the source leaves them at None. */
  datatype ReleaseInfo = ReleaseInfo(
    distrib: string,
    name: string,
    id: string,
    order: int,
    codename: Option<string>,
    cpe: Option<string>,
    suite: Option<string>,
    releaseDate: Date,
    eolDate: Date)

  /** The identity string of a release: distribution id, '-', release id, and '-' plus the
      codename when there is one. */
  function Uid(r: ReleaseInfo): (u: string)
    ensures r.distrib + "-" <= u
  {
    r.distrib + "-" + r.id + (if r.codename.None? then "" else "-" + r.codename.value)
  }

  /** Splits `s` at its first '-': the text before it, and the text after it if there is a
      dash at all. */
  function SplitAtDash(s: string): (string, Option<string>)
  {
    if s == [] then ([], None)
    else if s[0] == '-' then ([], Some(s[1..]))
    else
      var rest := SplitAtDash(s[1..]);
      ([s[0]] + rest.0, rest.1)
  }

  /** Reads a release id and codename back from a uid of a release of distribution `distId`. */
  function ParseUid(u: string, distId: string): (string, Option<string>)
    requires distId + "-" <= u
  {
    SplitAtDash(u[|distId| + 1..])
  }

  lemma {:induction false} SplitAtDashJoin(a: string, b: string)
    requires '-' !in a
    ensures SplitAtDash(a) == (a, None)
    ensures SplitAtDash(a + "-" + b) == (a, Some(b))
  {
    if a != [] {
      SplitAtDashJoin(a[1..], b);
      assert (a + "-" + b)[1..] == a[1..] + "-" + b;
      assert [a[0]] + a[1..] == a;
    } else {
      assert a + "-" + b == ['-'] + b;
    }
  }

  /** The uid determines the release id and the codename, as long as the release id has no
      dash (as no dotted version number has). */
  lemma UidRoundTrip(r: ReleaseInfo)
    requires '-' !in r.id
    ensures ParseUid(Uid(r), r.distrib) == (r.id, r.codename)
  {
    var u := Uid(r);
    var n := |r.distrib| + 1;
    if r.codename.None? {
      assert u[n..] == r.id;
      SplitAtDashJoin(r.id, "");
    } else {
      assert u[n..] == r.id + "-" + r.codename.value;
      SplitAtDashJoin(r.id, r.codename.value);
    }
  }

  /** Two releases of one distribution have the same uid exactly when they have the same
      release id and the same codename (release ids without dashes). */
  lemma UidInjective(a: ReleaseInfo, b: ReleaseInfo)
    requires a.distrib == b.distrib
    requires '-' !in a.id && '-' !in b.id
    ensures Uid(a) == Uid(b) <==> a.id == b.id && a.codename == b.codename
  {
    if Uid(a) == Uid(b) {
      UidRoundTrip(a);
      UidRoundTrip(b);
    }
  }

  // ------------------------------------------------------------------------------------
  // Lifecycle on a given day

  predicate Released(r: ReleaseInfo, today: Date) { r.releaseDate <= today }

  predicate Eoled(r: ReleaseInfo, today: Date) { r.eolDate <= today }

  predicate Supported(r: ReleaseInfo, today: Date) { Released(r, today) && !Eoled(r, today) }

  /** A release is supported exactly during the half-open window from its release date to its
      end-of-life date. */
  lemma SupportedWindow(r: ReleaseInfo, today: Date)
    ensures Supported(r, today) <==> r.releaseDate <= today < r.eolDate
  {
  }

  /** Being released and being end-of-life are permanent: they stay true on every later day. */
  lemma LifecycleMonotone(r: ReleaseInfo, today: Date, later: Date)
    requires today <= later
    ensures Released(r, today) ==> Released(r, later)
    ensures Eoled(r, today) ==> Eoled(r, later)
  {
  }

  /** With the default dates (date.max) a release is neither released, end-of-life nor
      supported on any day before date.max. */
  lemma DefaultDatesNeverReleased(r: ReleaseInfo, today: Date)
    requires r.releaseDate == MaxDate && r.eolDate == MaxDate
    requires today < MaxDate
    ensures !Released(r, today) && !Eoled(r, today) && !Supported(r, today)
  {
  }

  // ------------------------------------------------------------------------------------
  // Comparisons: ReleaseInfo.__lt__ and __eq__, and the Python operators built on them

  /** Raised by the query: comparing releases of different distributions, or the one-argument
      date() call of the date filters. */
  datatype QueryError = TypeError

  /** ReleaseInfo.__lt__; None stands for NotImplemented. */
  function LessThan(a: ReleaseInfo, b: ReleaseInfo): Option<bool>
  {
    if b.distrib != a.distrib then None else Some(a.order < b.order)
  }

  /** ReleaseInfo.__eq__; None stands for NotImplemented. */
  function EqualTo(a: ReleaseInfo, b: ReleaseInfo): Option<bool>
  {
    if b.distrib != a.distrib then None else Some(a.order == b.order)
  }

  /** The `==` operator: when __eq__ is NotImplemented both ways, Python compares identities,
      and releases of different distributions are different objects. */
  predicate EqualOp(a: ReleaseInfo, b: ReleaseInfo)
  {
    match EqualTo(a, b)
    case Some(e) => e
    case None => false
  }

  /** __gt__ as functools.total_ordering derives it from __lt__: `not a < b and a != b`,
      NotImplemented when __lt__ is. */
  function GreaterThan(a: ReleaseInfo, b: ReleaseInfo): Option<bool>
  {
    match LessThan(a, b)
    case None => None
    case Some(lt) => Some(!lt && !EqualOp(a, b))
  }

  /** The `<` operator: __lt__, then the reflected __gt__, then TypeError. */
  function LessOp(a: ReleaseInfo, b: ReleaseInfo): Result<bool, QueryError>
  {
    match LessThan(a, b)
    case Some(v) => Ok(v)
    case None =>
      match GreaterThan(b, a)
      case Some(v) => Ok(v)
      case None => Err(TypeError)
  }

  /** The `>` operator: __gt__, then the reflected __lt__, then TypeError. */
  function GreaterOp(a: ReleaseInfo, b: ReleaseInfo): Result<bool, QueryError>
  {
    match GreaterThan(a, b)
    case Some(v) => Ok(v)
    case None =>
      match LessThan(b, a)
      case Some(v) => Ok(v)
      case None => Err(TypeError)
  }

  /** Within one distribution, `<`, `==` and `>` compare only the order numbers. */
  lemma ComparisonsFollowOrder(a: ReleaseInfo, b: ReleaseInfo)
    requires a.distrib == b.distrib
    ensures LessOp(a, b) == Ok(a.order < b.order)
    ensures GreaterOp(a, b) == Ok(a.order > b.order)
    ensures EqualOp(a, b) <==> a.order == b.order
  {
  }

  /** Releases of different distributions are never equal and cannot be ordered. */
  lemma ComparisonsAcrossDistributions(a: ReleaseInfo, b: ReleaseInfo)
    requires a.distrib != b.distrib
    ensures LessThan(a, b).None? && EqualTo(a, b).None?
    ensures LessOp(a, b).Err? && GreaterOp(a, b).Err? && !EqualOp(a, b)
  {
  }

  /** Within one distribution, `<` is a strict order and exactly one of `<`, `==`, `>` holds. */
  lemma StrictOrderWithinDistribution(a: ReleaseInfo, b: ReleaseInfo, c: ReleaseInfo)
    requires a.distrib == b.distrib == c.distrib
    ensures LessOp(a, a) == Ok(false)
    ensures LessOp(a, b) == Ok(true) && LessOp(b, c) == Ok(true) ==> LessOp(a, c) == Ok(true)
    ensures (LessOp(a, b) == Ok(true)) || EqualOp(a, b) || (GreaterOp(a, b) == Ok(true))
    ensures !(LessOp(a, b) == Ok(true) && EqualOp(a, b))
    ensures !(GreaterOp(a, b) == Ok(true) && EqualOp(a, b))
    ensures !(LessOp(a, b) == Ok(true) && GreaterOp(a, b) == Ok(true))
  {
  }

  // ------------------------------------------------------------------------------------
  // Queries: DistInfo.releases

  /** The keyword arguments of DistInfo.releases; None means "no filter". */
  datatype Query = Query(
    id: Option<string>,
    codename: Option<string>,
    cpe: Option<string>,
    suite: Option<string>,
    releaseDate: Option<Date>,
    eolDate: Option<Date>,
    released: Option<bool>,
    supported: Option<bool>,
    eoled: Option<bool>,
    after: Option<ReleaseInfo>,
    before: Option<ReleaseInfo>)

  /** The query with every filter left at None. */
  const AllReleases: Query := Query(None, None, None, None, None, None, None, None, None, None, None)

  /** What the filter closure does with one release. */
  datatype Verdict = Keep | Drop | Raise

  predicate AttributesMatch(r: ReleaseInfo, q: Query)
  {
    && (q.id.None? || r.id == q.id.value)
    && (q.codename.None? || r.codename == q.codename)
    && (q.cpe.None? || r.cpe == q.cpe)
    && (q.suite.None? || r.suite == q.suite)
  }

  predicate HasDateFilter(q: Query) { q.releaseDate.Some? || q.eolDate.Some? }

  predicate DatesMatch(r: ReleaseInfo, q: Query)
  {
    && (q.releaseDate.None? || r.releaseDate == q.releaseDate.value)
    && (q.eolDate.None? || r.eolDate == q.eolDate.value)
  }

  predicate LifecycleMatches(r: ReleaseInfo, q: Query, today: Date)
  {
    && (q.released.None? || Released(r, today) == q.released.value)
    && (q.supported.None? || Supported(r, today) == q.supported.value)
    && (q.eoled.None? || Eoled(r, today) == q.eoled.value)
  }

  /** `after` and `before` are strict bounds on the order number. */
  predicate WithinBounds(r: ReleaseInfo, q: Query)
  {
    && (q.after.None? || q.after.value.order < r.order)
    && (q.before.None? || r.order < q.before.value.order)
  }

  /** The intended meaning of a query: every filter that is given holds. */
  predicate Matches(r: ReleaseInfo, q: Query, today: Date)
  {
    AttributesMatch(r, q) && DatesMatch(r, q) && LifecycleMatches(r, q, today) && WithinBounds(r, q)
  }

  /** A bound that is reached by the filter and belongs to another distribution than `r`. */
  predicate BoundIncomparable(r: ReleaseInfo, q: Query)
  {
    || (q.after.Some? && q.after.value.distrib != r.distrib)
    || ((q.after.None? || q.after.value.order < r.order) && q.before.Some? && q.before.value.distrib != r.distrib)
  }

  /** The filter closure of DistInfo.releases on one release, check by check in the source's
      order. With `datesByValue` false the date filters call date() with a single argument and
      raise, as the source does; with it true they compare dates for equality. */
  function Evaluate(r: ReleaseInfo, q: Query, today: Date, datesByValue: bool): Verdict
  {
    if !AttributesMatch(r, q) then Drop
    else if q.releaseDate.Some? && !datesByValue then Raise
    else if q.releaseDate.Some? && r.releaseDate != q.releaseDate.value then Drop
    else if q.eolDate.Some? && !datesByValue then Raise
    else if q.eolDate.Some? && r.eolDate != q.eolDate.value then Drop
    else if !LifecycleMatches(r, q, today) then Drop
    else if q.after.Some? && GreaterOp(r, q.after.value).Err? then Raise
    else if q.after.Some? && !GreaterOp(r, q.after.value).value then Drop
    else if q.before.Some? && LessOp(r, q.before.value).Err? then Raise
    else if q.before.Some? && !LessOp(r, q.before.value).value then Drop
    else Keep
  }

  /** The filter raises exactly when a date filter is reached (as written) or a bound of
      another distribution is reached; when it does not raise it keeps exactly the releases
      that match. */
  lemma EvaluateMeaning(r: ReleaseInfo, q: Query, today: Date, datesByValue: bool)
    ensures Evaluate(r, q, today, datesByValue).Raise? <==>
      AttributesMatch(r, q) &&
      ((!datesByValue && HasDateFilter(q)) ||
       (DatesMatch(r, q) && LifecycleMatches(r, q, today) && BoundIncomparable(r, q)))
    ensures !Evaluate(r, q, today, datesByValue).Raise? ==>
      (Evaluate(r, q, today, datesByValue).Keep? <==> Matches(r, q, today))
  {
    if q.after.Some? && q.after.value.distrib == r.distrib {
      ComparisonsFollowOrder(r, q.after.value);
    }
    if q.before.Some? && q.before.value.distrib == r.distrib {
      ComparisonsFollowOrder(r, q.before.value);
    }
  }

  /** filter(__filter_func, ...): the kept releases, in iteration order. */
  function Filtered(rs: seq<ReleaseInfo>, q: Query, today: Date, datesByValue: bool): (v: seq<ReleaseInfo>)
    ensures forall r :: multiset(v)[r] ==
                        (if Evaluate(r, q, today, datesByValue).Keep? then multiset(rs)[r] else 0)
  {
    if rs == [] then []
    else
      assert rs == [rs[0]] + rs[1..];
      (if Evaluate(rs[0], q, today, datesByValue).Keep? then [rs[0]] else []) +
      Filtered(rs[1..], q, today, datesByValue)
  }

  /** The filter gives the same releases whichever way the date filters work when there is no
      date filter. */
  lemma {:induction false} FilteredWithoutDateFilter(rs: seq<ReleaseInfo>, q: Query, today: Date)
    requires !HasDateFilter(q)
    ensures Filtered(rs, q, today, false) == Filtered(rs, q, today, true)
  {
    if rs != [] {
      FilteredWithoutDateFilter(rs[1..], q, today);
    }
  }

  predicate SortedByOrder(s: seq<ReleaseInfo>)
  {
    forall i, j :: 0 <= i < j < |s| ==> s[i].order <= s[j].order
  }

  /** Inserts `r` before the first release of `s` whose order is not smaller, which keeps the
      sort stable. */
  function InsertByOrder(r: ReleaseInfo, s: seq<ReleaseInfo>): (t: seq<ReleaseInfo>)
    requires SortedByOrder(s)
    ensures SortedByOrder(t)
    ensures multiset(t) == multiset(s) + multiset{r}
  {
    if s == [] || r.order <= s[0].order then
      SortedCons(r, s);
      [r] + s
    else
      assert s == [s[0]] + s[1..];
      var t := InsertByOrder(r, s[1..]);
      SortedHeadBound(s);
      MultisetBound(s[0].order, r, s[1..], t);
      SortedCons(s[0], t);
      [s[0]] + t
  }

  lemma SortedHeadBound(s: seq<ReleaseInfo>)
    requires s != [] && SortedByOrder(s)
    ensures forall y :: y in s[1..] ==> s[0].order <= y.order
  {
    forall y | y in s[1..] ensures s[0].order <= y.order {
      var k :| 0 <= k < |s[1..]| && s[1..][k] == y;
      assert s[k + 1] == y;
    }
  }

  /** A lower bound of `s` and of `r` bounds every release of a sequence holding them. */
  lemma MultisetBound(b: int, r: ReleaseInfo, s: seq<ReleaseInfo>, t: seq<ReleaseInfo>)
    requires multiset(t) == multiset(s) + multiset{r}
    requires b <= r.order && forall y :: y in s ==> b <= y.order
    ensures forall y :: y in t ==> b <= y.order
  {
    forall y | y in t ensures b <= y.order {
      assert y in multiset(t);
    }
  }

  lemma SortedCons(x: ReleaseInfo, t: seq<ReleaseInfo>)
    requires SortedByOrder(t)
    requires forall y :: y in t ==> x.order <= y.order
    ensures SortedByOrder([x] + t)
  {
    forall i, j | 0 <= i < j < |[x] + t| ensures ([x] + t)[i].order <= ([x] + t)[j].order {
      if i > 0 {
        assert ([x] + t)[i] == t[i - 1] && ([x] + t)[j] == t[j - 1];
      } else {
        assert ([x] + t)[j] == t[j - 1];
        assert t[j - 1] in t;
      }
    }
  }

  /** sorted(): a stable sort by order number. Between releases of one distribution `<` is
      the comparison of order numbers (ComparisonsFollowOrder). */
  function SortByOrder(s: seq<ReleaseInfo>): (t: seq<ReleaseInfo>)
    ensures SortedByOrder(t)
    ensures multiset(t) == multiset(s)
  {
    if s == [] then []
    else
      assert s == [s[0]] + s[1..];
      InsertByOrder(s[0], SortByOrder(s[1..]))
  }

  /** sorted(filter(__filter_func, rs)): TypeError as soon as one release raises (the whole
      filter is consumed by sorted), otherwise the kept releases sorted by order. */
  function Select(rs: seq<ReleaseInfo>, q: Query, today: Date, datesByValue: bool): (res: Result<seq<ReleaseInfo>, QueryError>)
    ensures res.Err? <==> exists i :: 0 <= i < |rs| && Evaluate(rs[i], q, today, datesByValue).Raise?
    ensures res.Ok? ==> SortedByOrder(res.value)
    ensures res.Ok? ==> forall r :: multiset(res.value)[r] ==
                                    (if Matches(r, q, today) then multiset(rs)[r] else 0)
  {
    if exists i :: 0 <= i < |rs| && Evaluate(rs[i], q, today, datesByValue).Raise? then Err(TypeError)
    else
      var v := SortByOrder(Filtered(rs, q, today, datesByValue));
      assert forall r :: multiset(v)[r] == if Matches(r, q, today) then multiset(rs)[r] else 0 by {
        forall r ensures multiset(v)[r] == if Matches(r, q, today) then multiset(rs)[r] else 0 {
          EvaluateMeaning(r, q, today, datesByValue);
        }
      }
      Ok(v)
  }

  /** With the date filters comparing dates, only a reached bound of another distribution
      raises; without date filters both readings of the filter agree. */
  lemma SelectCorrected(rs: seq<ReleaseInfo>, q: Query, today: Date)
    ensures Select(rs, q, today, true).Err? <==>
      exists i :: (0 <= i < |rs| && AttributesMatch(rs[i], q) && DatesMatch(rs[i], q) &&
                   LifecycleMatches(rs[i], q, today) && BoundIncomparable(rs[i], q))
    ensures !HasDateFilter(q) ==> Select(rs, q, today, false) == Select(rs, q, today, true)
  {
    forall i | 0 <= i < |rs|
      ensures Evaluate(rs[i], q, today, true).Raise? <==>
        AttributesMatch(rs[i], q) && DatesMatch(rs[i], q) &&
        LifecycleMatches(rs[i], q, today) && BoundIncomparable(rs[i], q)
    {
      EvaluateMeaning(rs[i], q, today, true);
    }
    if !HasDateFilter(q) {
      FilteredWithoutDateFilter(rs, q, today);
    }
  }

  /** As written, a query raises exactly when some release reaches the date filters, or
      reaches a bound of another distribution. */
  lemma SelectAsWritten(rs: seq<ReleaseInfo>, q: Query, today: Date)
    ensures Select(rs, q, today, false).Err? <==>
      exists i :: (0 <= i < |rs| && AttributesMatch(rs[i], q) &&
                   (HasDateFilter(q) ||
                    (DatesMatch(rs[i], q) && LifecycleMatches(rs[i], q, today) && BoundIncomparable(rs[i], q))))
  {
    forall i | 0 <= i < |rs|
      ensures Evaluate(rs[i], q, today, false).Raise? <==>
        AttributesMatch(rs[i], q) &&
        (HasDateFilter(q) || (DatesMatch(rs[i], q) && LifecycleMatches(rs[i], q, today) && BoundIncomparable(rs[i], q)))
    {
      EvaluateMeaning(rs[i], q, today, false);
    }
  }

  /** A release date filter that the one release of the store matches: as written the
      query raises TypeError, while comparing dates returns that release. */
  lemma DateFilterCounterexample()
    ensures var r := ReleaseInfo("debian", "11 (bullseye)", "11", 0, Some("bullseye"), None, None, 738000, MaxDate);
      var q := AllReleases.(releaseDate := Some(738000));
      && Matches(r, q, 738500)
      && Select([r], q, 738500, false) == Err(TypeError)
      && Select([r], q, 738500, true) == Ok([r])
  {
    var r := ReleaseInfo("debian", "11 (bullseye)", "11", 0, Some("bullseye"), None, None, 738000, MaxDate);
    var q := AllReleases.(releaseDate := Some(738000));
    assert Evaluate([r][0], q, 738500, false).Raise?;
    assert Evaluate([r][0], q, 738500, true).Keep?;
    assert [r][1..] == [];
    assert Filtered([r], q, 738500, true) == [r];
    assert SortByOrder([r]) == [r];
  }

  // ------------------------------------------------------------------------------------
  // The release store of a distribution

  /** The identity of a release inside a Python set: its hash is that of the uid and __eq__
      compares order numbers, so two releases are the same element when both agree. */
  function Key(r: ReleaseInfo): (string, int) { (Uid(r), r.order) }

  predicate KeysUnique(rs: seq<ReleaseInfo>)
  {
    forall i, j :: 0 <= i < j < |rs| ==> Key(rs[i]) != Key(rs[j])
  }

  /** set.add: nothing happens when an element with the same key is present. */
  function Added(rs: seq<ReleaseInfo>, r: ReleaseInfo): (t: seq<ReleaseInfo>)
    ensures KeysUnique(rs) ==> KeysUnique(t)
    ensures exists i :: 0 <= i < |t| && Key(t[i]) == Key(r)
    ensures forall x :: x in rs ==> x in t
    ensures forall x :: x in t ==> x in rs || x == r
  {
    if exists i :: 0 <= i < |rs| && Key(rs[i]) == Key(r) then rs
    else
      assert (rs + [r])[|rs|] == r;
      rs + [r]
  }

  /** Adding a release is idempotent, as adding to a set is. */
  lemma AddedIdempotent(rs: seq<ReleaseInfo>, r: ReleaseInfo)
    ensures Added(Added(rs, r), r) == Added(rs, r)
  {
    var t := Added(rs, r);
    if !exists i :: 0 <= i < |rs| && Key(rs[i]) == Key(r) {
      assert Key(t[|rs|]) == Key(r);
    }
  }

  /** A release store with unique keys holds each release at most once. */
  lemma {:induction false} KeysUniqueAtMostOnce(rs: seq<ReleaseInfo>, x: ReleaseInfo)
    requires KeysUnique(rs)
    ensures multiset(rs)[x] <= 1
  {
    if rs != [] {
      assert rs == [rs[0]] + rs[1..];
      assert KeysUnique(rs[1..]);
      if rs[0] == x {
        assert x !in rs[1..];
      } else {
        KeysUniqueAtMostOnce(rs[1..], x);
      }
    }
  }

  /** Anything drawn from a store with unique keys, as a sub-multiset, has unique keys. */
  lemma KeysUniqueSub(l: seq<ReleaseInfo>, rs: seq<ReleaseInfo>)
    requires KeysUnique(rs)
    requires forall x :: multiset(l)[x] <= multiset(rs)[x]
    ensures KeysUnique(l)
  {
    forall i, j | 0 <= i < j < |l| ensures Key(l[i]) != Key(l[j]) {
      if l[i] == l[j] {
        assert l == l[..j] + l[j..];
        assert l[i] in l[..j];
        assert l[j] in l[j..];
        assert multiset(l)[l[i]] >= 2;
        KeysUniqueAtMostOnce(rs, l[i]);
        assert false;
      } else {
        assert multiset(l)[l[i]] > 0 && multiset(l)[l[j]] > 0;
        assert l[i] in rs && l[j] in rs;
        var a :| 0 <= a < |rs| && rs[a] == l[i];
        var b :| 0 <= b < |rs| && rs[b] == l[j];
        assert a != b;
      }
    }
  }

  /** The releases of `rs` with `key` get suite `s`; nothing else changes. */
  function WithSuite(rs: seq<ReleaseInfo>, key: (string, int), s: string): (t: seq<ReleaseInfo>)
    ensures |t| == |rs|
    ensures forall i :: 0 <= i < |rs| ==>
      t[i] == if Key(rs[i]) == key then rs[i].(suite := Some(s)) else rs[i]
  {
    seq(|rs|, i requires 0 <= i < |rs| => if Key(rs[i]) == key then rs[i].(suite := Some(s)) else rs[i])
  }

  /** `b` is `a` with, at most, other suites. */
  predicate SameButSuites(a: seq<ReleaseInfo>, b: seq<ReleaseInfo>)
  {
    |a| == |b| && forall i :: 0 <= i < |a| ==> b[i] == a[i].(suite := b[i].suite)
  }

  /** Some release of `rs` matches `q`. */
  predicate HasMatch(rs: seq<ReleaseInfo>, q: Query, today: Date)
  {
    exists i :: 0 <= i < |rs| && Matches(rs[i], q, today)
  }

  /** Changing suites does not change which releases a query without a suite filter finds. */
  lemma HasMatchIgnoresSuites(a: seq<ReleaseInfo>, b: seq<ReleaseInfo>, q: Query, today: Date)
    requires SameButSuites(a, b)
    requires q.suite.None?
    ensures HasMatch(a, q, today) <==> HasMatch(b, q, today)
  {
    if HasMatch(a, q, today) {
      var i :| 0 <= i < |a| && Matches(a[i], q, today);
      assert Matches(b[i], q, today);
    }
    if HasMatch(b, q, today) {
      var i :| 0 <= i < |b| && Matches(b[i], q, today);
      assert Matches(a[i], q, today);
    }
  }

  /** A distribution (DistInfo). `idLike` holds the distribution's own id followed by the ids
      it resembles; `releases` is the set `_releases`, in insertion order. */
  class DistInfo {
    const name: string
    const id: string
    const idLike: seq<string>
    var releases: seq<ReleaseInfo>

    predicate IdLikeStartsWithId()
    {
      |idLike| > 0 && idLike[0] == id
    }

    /** Every stored release belongs to this distribution and is stored once. */
    predicate Valid()
      reads this
    {
      && IdLikeStartsWithId()
      && (forall i :: 0 <= i < |releases| ==> releases[i].distrib == id)
      && KeysUnique(releases)
    }

    constructor (name: string, id: string, idLike: seq<string>)
      ensures this.name == name && this.id == id
      ensures this.idLike == [id] + idLike
      ensures releases == []
      ensures Valid()
    {
      this.name := name;
      this.id := id;
      this.idLike := [id] + idLike;
      releases := [];
    }

    /** add_release: a new release of this distribution goes into the set. */
    method AddRelease(name: string, id: string, order: int, codename: Option<string>,
                      cpe: Option<string>, suite: Option<string>, releaseDate: Date, eolDate: Date)
      requires Valid()
      modifies this
      ensures Valid()
      ensures releases ==
        Added(old(releases), ReleaseInfo(this.id, name, id, order, codename, cpe, suite, releaseDate, eolDate))
    {
      releases := Added(releases, ReleaseInfo(this.id, name, id, order, codename, cpe, suite, releaseDate, eolDate));
    }

    /** DistInfo.releases as written: the releases that pass every given filter, sorted by
        order; TypeError when a reached bound belongs to another distribution, or when any
        release reaches the release_date or eol_date filter. */
    function Releases(q: Query, today: Date): (res: Result<seq<ReleaseInfo>, QueryError>)
      requires Valid()
      reads this
      ensures res.Ok? ==> SortedByOrder(res.value)
      ensures res.Ok? ==> forall r :: multiset(res.value)[r] ==
                                      (if Matches(r, q, today) then multiset(releases)[r] else 0)
      ensures res.Err? <==>
        exists i :: (0 <= i < |releases| && AttributesMatch(releases[i], q) &&
                     (HasDateFilter(q) ||
                      (DatesMatch(releases[i], q) && LifecycleMatches(releases[i], q, today) &&
                       BoundIncomparable(releases[i], q))))
      ensures q.releaseDate.Some? && (exists i :: 0 <= i < |releases| && AttributesMatch(releases[i], q)) ==>
        res.Err?
      ensures !HasDateFilter(q) && q.after.None? && q.before.None? ==> res.Ok?
    {
      SelectAsWritten(releases, q, today);
      Select(releases, q, today, false)
    }

    /** DistInfo.releases with the date filters comparing dates, as they evidently are meant
        to: sound, complete and sorted, raising only for a reached bound of another
        distribution. */
    function ReleasesCorrected(q: Query, today: Date): (res: Result<seq<ReleaseInfo>, QueryError>)
      requires Valid()
      reads this
      ensures res.Ok? ==> SortedByOrder(res.value)
      ensures res.Ok? ==> forall r :: multiset(res.value)[r] ==
                                      (if Matches(r, q, today) then multiset(releases)[r] else 0)
      ensures res.Err? <==>
        exists i :: (0 <= i < |releases| && AttributesMatch(releases[i], q) && DatesMatch(releases[i], q) &&
                     LifecycleMatches(releases[i], q, today) && BoundIncomparable(releases[i], q))
      ensures !HasDateFilter(q) ==> res == Releases(q, today)
    {
      SelectCorrected(releases, q, today);
      Select(releases, q, today, true)
    }

    /** `release.suite = s` for the stored release with the given key. */
    method SetSuite(key: (string, int), s: string)
      requires Valid()
      modifies this
      ensures Valid()
      ensures releases == WithSuite(old(releases), key, s)
    {
      releases := WithSuite(releases, key, s);
    }
  }

  /** A query answer holds no release twice, nor two releases the set would identify. */
  lemma ReleasesHaveNoDuplicates(d: DistInfo, q: Query, today: Date)
    requires d.Valid()
    ensures d.Releases(q, today).Ok? ==> KeysUnique(d.Releases(q, today).value)
    ensures d.ReleasesCorrected(q, today).Ok? ==> KeysUnique(d.ReleasesCorrected(q, today).value)
  {
    var res := d.Releases(q, today);
    if res.Ok? {
      AnswerMembers(res.value, d.releases, q, today);
      KeysUniqueSub(res.value, d.releases);
    }
    var fixed := d.ReleasesCorrected(q, today);
    if fixed.Ok? {
      AnswerMembers(fixed.value, d.releases, q, today);
      KeysUniqueSub(fixed.value, d.releases);
    }
  }

  /** With no filter, releases() gives every release of the distribution once, sorted. */
  lemma UnfilteredReleases(d: DistInfo, today: Date)
    requires d.Valid()
    ensures d.Releases(AllReleases, today).Ok?
    ensures var l := d.Releases(AllReleases, today).value;
      SortedByOrder(l) && KeysUnique(l) && multiset(l) == multiset(d.releases) && |l| == |d.releases|
  {
    var l := d.Releases(AllReleases, today).value;
    assert multiset(l) == multiset(d.releases);
    ReleasesHaveNoDuplicates(d, AllReleases, today);
    assert |multiset(l)| == |multiset(d.releases)|;
  }

  // ------------------------------------------------------------------------------------
  // distributions()

  /** `set(like) <= set(d.id_like)`. */
  predicate LikesAll(d: DistInfo, like: set<string>)
  {
    forall x :: x in like ==> x in d.idLike
  }

  /** distributions(id, id_like): the distributions with the given id, if one is given, whose
      id_like contains every requested id. */
  function Distributions(all: seq<DistInfo>, id: Option<string>, like: set<string>): (r: seq<DistInfo>)
    ensures forall d :: d in r ==> d in all && (id.None? || d.id == id.value) && LikesAll(d, like)
    ensures forall d :: d in all && (id.None? || d.id == id.value) && LikesAll(d, like) ==> d in r
    ensures |r| <= |all|
  {
    if all == [] then []
    else
      var rest := Distributions(all[1..], id, like);
      if (id.None? || all[0].id == id.value) && LikesAll(all[0], like) then [all[0]] + rest else rest
  }

  /** A distribution is always like itself: asking for its own id as id_like finds it. */
  lemma DistributionLikesItself(all: seq<DistInfo>, d: DistInfo)
    requires d in all && d.IdLikeStartsWithId()
    ensures d in Distributions(all, None, {d.id})
    ensures d in Distributions(all, Some(d.id), {d.id})
  {
  }

  /** With no filter, distributions() yields every distribution. */
  lemma {:induction false} DistributionsUnfiltered(all: seq<DistInfo>)
    ensures Distributions(all, None, {}) == all
  {
    if all != [] {
      DistributionsUnfiltered(all[1..]);
      assert [all[0]] + all[1..] == all;
    }
  }

  // ------------------------------------------------------------------------------------
  // Loading a distro-info table (__debubun_rel)

  /** A row that cannot be turned into a release: no header line at all (StopIteration), fewer
      than three columns (IndexError), or a date column that date.fromisoformat rejects
      (ValueError). */
  datatype LoadError = MissingHeader | ShortRow(order: int) | BadDate(order: int, text: string)

  predicate IsVersionChar(c: char) { '0' <= c <= '9' || c == '.' }

  /** re.sub(r'[^0-9.].*', '', version): the text goes from the first character that is not a
      digit or a dot to the end. */
  function VersionId(version: string): (id: string)
    ensures id <= version
    ensures forall i :: 0 <= i < |id| ==> IsVersionChar(id[i])
    ensures |id| < |version| ==> !IsVersionChar(version[|id|])
  {
    if version == [] || !IsVersionChar(version[0]) then []
    else [version[0]] + VersionId(version[1..])
  }

  /** A release id read from a version column never contains a dash, so its uid can be read
      back (UidRoundTrip). */
  lemma VersionIdHasNoDash(version: string)
    ensures '-' !in VersionId(version)
  {
  }

  /** The release name: the codename column alone when the version column is empty, else
      "version (codename)". */
  function DisplayName(version: string, codename: string): (n: string)
    ensures version == "" ==> n == codename
    ensures version != "" ==> version + " (" <= n && |n| == |version| + |codename| + 3
  {
    if version == "" then codename else version + " (" + codename + ")"
  }

  /** A release name with a version reads back as the version, " (", the codename and ")". */
  lemma DisplayNameParts(version: string, codename: string)
    requires version != ""
    ensures var n := DisplayName(version, codename);
      && |n| == |version| + |codename| + 3
      && n[..|version|] == version && n[|version|..|version| + 2] == " ("
      && n[|version| + 2..|n| - 1] == codename && n[|n| - 1] == ')'
  {
    var n := DisplayName(version, codename);
    assert n == (version + " (") + (codename + ")");
    assert n[|version| + 2..] == codename + ")";
  }

  /** A release name determines its codename once the version is known. */
  lemma DisplayNameInjective(version: string, c1: string, c2: string)
    ensures DisplayName(version, c1) == DisplayName(version, c2) <==> c1 == c2
  {
    if DisplayName(version, c1) == DisplayName(version, c2) && version != "" {
      DisplayNameParts(version, c1);
      DisplayNameParts(version, c2);
    }
  }

  /** One table row turned into the release with order `order`: version, codename and series
      columns first (IndexError when missing), then the release and end-of-life dates when
      the row has those columns. */
  function RowRelease(distrib: string, order: int, row: seq<string>, parse: string -> Option<Date>): (res: Result<ReleaseInfo, LoadError>)
    ensures |row| < 3 ==> res == Err(ShortRow(order))
    ensures res.Err? <==>
      |row| < 3 || (|row| > 4 && parse(row[4]).None?) || (|row| > 5 && parse(row[5]).None?)
    ensures |row| >= 3 && res.Err? ==>
      res == Err(BadDate(order, if |row| > 4 && parse(row[4]).None? then row[4] else row[5]))
    ensures res.Ok? ==>
      && res.value.distrib == distrib && res.value.order == order
      && res.value.id == VersionId(row[0]) && res.value.name == DisplayName(row[0], row[1])
      && res.value.codename == Some(row[2]) && res.value.cpe.None? && res.value.suite.None?
      && res.value.releaseDate == (if |row| > 4 then parse(row[4]).value else MaxDate)
      && res.value.eolDate == (if |row| > 5 then parse(row[5]).value else MaxDate)
  {
    if |row| < 3 then Err(ShortRow(order))
    else
      var release := ReleaseInfo(distrib, DisplayName(row[0], row[1]), VersionId(row[0]), order,
                                 Some(row[2]), None, None, MaxDate, MaxDate);
      if |row| > 4 && parse(row[4]).None? then Err(BadDate(order, row[4]))
      else
        var release := if |row| > 4 then release.(releaseDate := parse(row[4]).value) else release;
        if |row| > 5 && parse(row[5]).None? then Err(BadDate(order, row[5]))
        else Ok(if |row| > 5 then release.(eolDate := parse(row[5]).value) else release)
  }

  /** Adding the rows from order `order` on to the store `rs`: the store and the error that
      stopped the loop, if any. */
  function LoadRows(distrib: string, rs: seq<ReleaseInfo>, rows: seq<seq<string>>, order: int,
                    parse: string -> Option<Date>): (seq<ReleaseInfo>, Option<LoadError>)
    decreases |rows|
  {
    if rows == [] then (rs, None)
    else
      match RowRelease(distrib, order, rows[0], parse)
      case Err(e) => (rs, Some(e))
      case Ok(r) => LoadRows(distrib, Added(rs, r), rows[1..], order + 1, parse)
  }

  predicate OrdersBelow(rs: seq<ReleaseInfo>, n: int)
  {
    forall i :: 0 <= i < |rs| ==> rs[i].order < n
  }

  predicate RowsWellFormed(rows: seq<seq<string>>, parse: string -> Option<Date>)
  {
    forall k :: 0 <= k < |rows| ==>
      |rows[k]| >= 3 && (|rows[k]| > 4 ==> parse(rows[k][4]).Some?) && (|rows[k]| > 5 ==> parse(rows[k][5]).Some?)
  }

  /** The releases of well-formed rows, the first one with order `order`. */
  function Converted(distrib: string, rows: seq<seq<string>>, order: int, parse: string -> Option<Date>): (c: seq<ReleaseInfo>)
    requires RowsWellFormed(rows, parse)
    ensures |c| == |rows|
    ensures forall k {:trigger c[k]} :: 0 <= k < |rows| ==> Ok(c[k]) == RowRelease(distrib, order + k, rows[k], parse)
    ensures OrdersBelow(c, order + |rows|)
  {
    seq(|rows|, k requires 0 <= k < |rows| && RowsWellFormed(rows, parse) =>
      RowRelease(distrib, order + k, rows[k], parse).value)
  }

  lemma RowsWellFormedTail(rows: seq<seq<string>>, parse: string -> Option<Date>)
    requires rows != [] && RowsWellFormed(rows, parse)
    ensures RowsWellFormed(rows[1..], parse)
  {
    forall k | 0 <= k < |rows[1..]| ensures rows[1..][k] == rows[k + 1] { }
  }

  /** The first well-formed row gives the first release, the other rows the rest. */
  lemma ConvertedSplit(distrib: string, rows: seq<seq<string>>, order: int, parse: string -> Option<Date>)
    requires rows != [] && RowsWellFormed(rows, parse)
    ensures RowsWellFormed(rows[1..], parse)
    ensures RowRelease(distrib, order, rows[0], parse).Ok?
    ensures Converted(distrib, rows, order, parse) ==
      [RowRelease(distrib, order, rows[0], parse).value] + Converted(distrib, rows[1..], order + 1, parse)
  {
    RowsWellFormedTail(rows, parse);
    ConvertedHead(distrib, rows, order, parse);
    var c := Converted(distrib, rows, order, parse);
    var c' := Converted(distrib, rows[1..], order + 1, parse);
    forall k | 0 <= k < |c'| ensures c[k + 1] == c'[k] {
      ConvertedShift(distrib, rows, order, parse, k);
    }
    HeadAndShift(c, c', RowRelease(distrib, order, rows[0], parse).value);
  }

  /** A sequence is its first element followed by a sequence it agrees with one place on. */
  lemma HeadAndShift<T>(c: seq<T>, tail: seq<T>, x: T)
    requires |c| == |tail| + 1 && c[0] == x
    requires forall k :: 0 <= k < |tail| ==> c[k + 1] == tail[k]
    ensures c == [x] + tail
  {
    assert c[1..] == tail;
    assert c == [c[0]] + c[1..];
  }

  /** The first well-formed row gives the first release. */
  lemma ConvertedHead(distrib: string, rows: seq<seq<string>>, order: int, parse: string -> Option<Date>)
    requires rows != [] && RowsWellFormed(rows, parse)
    ensures RowRelease(distrib, order, rows[0], parse).Ok?
    ensures Converted(distrib, rows, order, parse)[0] == RowRelease(distrib, order, rows[0], parse).value
  {
    assert order + 0 == order;
  }

  /** Row k + 1 of the rows is row k of their tail, one order number further on. */
  lemma ConvertedShift(distrib: string, rows: seq<seq<string>>, order: int, parse: string -> Option<Date>, k: int)
    requires 0 <= k < |rows| - 1
    requires RowsWellFormed(rows, parse) && RowsWellFormed(rows[1..], parse)
    ensures Converted(distrib, rows, order, parse)[k + 1] == Converted(distrib, rows[1..], order + 1, parse)[k]
  {
    assert rows[1..][k] == rows[k + 1];
    assert order + (k + 1) == (order + 1) + k;
  }

  lemma ConcatAssociative<T>(a: seq<T>, b: seq<T>, c: seq<T>)
    ensures a + (b + c) == (a + b) + c
  {
  }

  /** A release whose order number is new to the store is really added. */
  lemma AddedFresh(rs: seq<ReleaseInfo>, r: ReleaseInfo)
    requires OrdersBelow(rs, r.order)
    ensures Added(rs, r) == rs + [r]
    ensures OrdersBelow(rs + [r], r.order + 1)
  {
    assert forall i :: 0 <= i < |rs| ==> Key(rs[i]) != Key(r);
  }

  /** When every row is well formed, each row becomes one new release whose order is its
      position: no row is lost to the set's deduplication, since the orders are new. */
  lemma {:induction false} LoadRowsAppends(distrib: string, rs: seq<ReleaseInfo>, rows: seq<seq<string>>,
                                           order: int, parse: string -> Option<Date>)
    requires OrdersBelow(rs, order)
    requires RowsWellFormed(rows, parse)
    ensures LoadRows(distrib, rs, rows, order, parse).0 == rs + Converted(distrib, rows, order, parse)
    ensures LoadRows(distrib, rs, rows, order, parse).1 == None
    decreases |rows|
  {
    if rows == [] {
      assert rs + Converted(distrib, rows, order, parse) == rs;
    } else {
      ConvertedSplit(distrib, rows, order, parse);
      var r := RowRelease(distrib, order, rows[0], parse).value;
      var ct := Converted(distrib, rows[1..], order + 1, parse);
      AddedFresh(rs, r);
      assert LoadRows(distrib, rs, rows, order, parse) == LoadRows(distrib, rs + [r], rows[1..], order + 1, parse);
      LoadRowsAppends(distrib, rs + [r], rows[1..], order + 1, parse);
      ConcatAssociative(rs, [r], ct);
    }
  }

  /** A good first row with a new order number is added, and the loop goes on with the rest. */
  lemma LoadRowsFirst(distrib: string, rs: seq<ReleaseInfo>, rows: seq<seq<string>>, order: int,
                      parse: string -> Option<Date>)
    requires OrdersBelow(rs, order)
    requires rows != [] && RowRelease(distrib, order, rows[0], parse).Ok?
    ensures OrdersBelow(rs + [RowRelease(distrib, order, rows[0], parse).value], order + 1)
    ensures LoadRows(distrib, rs, rows, order, parse) ==
      LoadRows(distrib, rs + [RowRelease(distrib, order, rows[0], parse).value], rows[1..], order + 1, parse)
  {
    AddedFresh(rs, RowRelease(distrib, order, rows[0], parse).value);
  }

  /** When `bad` is the first bad row, the good rows before it become releases and the loop
      stops with the bad row's error; the rows after it are never read. */
  lemma {:induction false} LoadRowsStops(distrib: string, rs: seq<ReleaseInfo>, good: seq<seq<string>>,
                                         bad: seq<string>, rest: seq<seq<string>>, order: int,
                                         parse: string -> Option<Date>, n: int, e: LoadError)
    requires OrdersBelow(rs, order)
    requires RowsWellFormed(good, parse)
    requires n == order + |good| && RowRelease(distrib, n, bad, parse) == Err(e)
    ensures LoadRows(distrib, rs, good + [bad] + rest, order, parse).0 == rs + Converted(distrib, good, order, parse)
    ensures LoadRows(distrib, rs, good + [bad] + rest, order, parse).1 == Some(e)
    decreases |good|
  {
    var rows := good + [bad] + rest;
    if good == [] {
      assert rows[0] == bad;
      assert rs + Converted(distrib, good, order, parse) == rs;
    } else {
      ConvertedSplit(distrib, good, order, parse);
      assert rows[0] == good[0];
      var r := RowRelease(distrib, order, good[0], parse).value;
      LoadRowsFirst(distrib, rs, rows, order, parse);
      assert rows[1..] == good[1..] + [bad] + rest;
      LoadRowsStops(distrib, rs + [r], good[1..], bad, rest, order + 1, parse, n, e);
      ConcatAssociative(rs, [r], Converted(distrib, good[1..], order + 1, parse));
    }
  }

  /** __debubun_rel once the table is fetched: skip the header line, then add one release per
      row, the row's position being its order; the first bad row stops the loop with its
      error, leaving the releases of the rows before it in place. */
  method ReadReleaseTable(d: DistInfo, table: seq<seq<string>>, parse: string -> Option<Date>)
    returns (err: Option<LoadError>)
    requires d.Valid()
    modifies d
    ensures d.Valid()
    ensures |table| == 0 ==> err == Some(MissingHeader) && d.releases == old(d.releases)
    ensures |table| > 0 ==> (d.releases, err) == LoadRows(d.id, old(d.releases), table[1..], 0, parse)
  {
    if |table| == 0 {
      return Some(MissingHeader);
    }
    var rows := table[1..];
    var order := 0;
    while order < |rows|
      invariant 0 <= order <= |rows|
      invariant d.Valid()
      invariant LoadRows(d.id, d.releases, rows[order..], order, parse) == LoadRows(d.id, old(d.releases), rows, 0, parse)
      decreases |rows| - order
    {
      assert rows[order..][1..] == rows[order + 1..];
      var release := RowRelease(d.id, order, rows[order], parse);
      match release {
        case Err(e) =>
          return Some(e);
        case Ok(r) =>
          d.releases := Added(d.releases, r);
      }
      order := order + 1;
    }
    err := None;
  }

  /** Loading a table into a fresh distribution: with a header and well-formed rows, release k
      is row k of the body, with order k. */
  lemma FreshTableLoad(distrib: string, table: seq<seq<string>>, parse: string -> Option<Date>)
    requires |table| > 0 && RowsWellFormed(table[1..], parse)
    ensures LoadRows(distrib, [], table[1..], 0, parse).1 == None
    ensures |LoadRows(distrib, [], table[1..], 0, parse).0| == |table| - 1
    ensures forall k :: 0 <= k < |table| - 1 ==>
      var r := LoadRows(distrib, [], table[1..], 0, parse).0[k];
      r.order == k && r.id == VersionId(table[k + 1][0]) && '-' !in r.id &&
      r.name == DisplayName(table[k + 1][0], table[k + 1][1]) && r.codename == Some(table[k + 1][2])
  {
    LoadRowsAppends(distrib, [], table[1..], 0, parse);
    var c := Converted(distrib, table[1..], 0, parse);
    assert [] + c == c;
    forall k | 0 <= k < |table| - 1
      ensures c[k].order == k && c[k].id == VersionId(table[k + 1][0]) && '-' !in c[k].id
      ensures c[k].name == DisplayName(table[k + 1][0], table[k + 1][1]) && c[k].codename == Some(table[k + 1][2])
    {
      assert table[1..][k] == table[k + 1];
      VersionIdHasNoDash(table[k + 1][0]);
    }
  }

  // ------------------------------------------------------------------------------------
  // Suite labelling (__init_distribs)

  /** 'old' * n */
  function Olds(n: nat): (s: string)
    ensures |s| == 3 * n
  {
    if n == 0 then "" else "old" + Olds(n - 1)
  }

  /** The suite of the n-th supported release counted from the newest: 'old' * n + 'stable'. */
  function SuiteName(n: nat): (s: string)
    ensures |s| == 3 * n + 6
    ensures "stable" <= s[3 * n..]
  {
    Olds(n) + "stable"
  }

  lemma SuiteNames()
    ensures SuiteName(0) == "stable" && SuiteName(1) == "oldstable" && SuiteName(2) == "oldoldstable"
  {
    SuiteNameStable();
    SuiteNameOldstable();
    SuiteNameOldoldstable();
  }

  lemma SuiteNameStable() ensures SuiteName(0) == "stable" { assert Olds(0) == ""; }

  lemma SuiteNameOldstable() ensures SuiteName(1) == "oldstable" { assert Olds(1) == "old" + Olds(0); }

  lemma SuiteNameOldoldstable()
    ensures SuiteName(2) == "oldoldstable"
  {
    assert Olds(1) == "old" + Olds(0);
    assert Olds(2) == "old" + Olds(1);
  }

  /** Different places among the supported releases get different suites. */
  lemma SuiteNamesDistinct(n: nat, m: nat)
    ensures SuiteName(n) == SuiteName(m) <==> n == m
  {
    if n != m {
      assert |SuiteName(n)| != |SuiteName(m)|;
    }
  }

  /** The first position at or above `lo` of a release of `l` with the given key. */
  function FirstKeyFrom(l: seq<ReleaseInfo>, key: (string, int), lo: int): (k: Option<int>)
    requires 0 <= lo <= |l|
    ensures k.Some? ==> lo <= k.value < |l| && Key(l[k.value]) == key
    ensures k.None? ==> forall j :: lo <= j < |l| ==> Key(l[j]) != key
    decreases |l| - lo
  {
    if lo == |l| then None
    else if Key(l[lo]) == key then Some(lo)
    else FirstKeyFrom(l, key, lo + 1)
  }

  /** What the labelling loop over `l[lo..]`, newest first, makes of release `r`: the suite
      of the lowest position holding its key, or no change. */
  function StableLabelled(l: seq<ReleaseInfo>, lo: int, r: ReleaseInfo): (t: ReleaseInfo)
    requires 0 <= lo <= |l|
    ensures t == r.(suite := t.suite)
  {
    match FirstKeyFrom(l, Key(r), lo)
    case None => r
    case Some(k) => r.(suite := Some(SuiteName(|l| - 1 - k)))
  }

  /** One more step of the labelling loop, at position lo - 1, labels the releases with that
      position's key and leaves the others as they were. */
  lemma StableLabelledStep(l: seq<ReleaseInfo>, lo: int, r: ReleaseInfo)
    requires 0 < lo <= |l|
    ensures StableLabelled(l, lo - 1, r) ==
      if Key(r) == Key(l[lo - 1]) then StableLabelled(l, lo, r).(suite := Some(SuiteName(|l| - lo)))
      else StableLabelled(l, lo, r)
  {
  }

  lemma {:induction false} FirstKeyFromUnique(l: seq<ReleaseInfo>, k: int, lo: int)
    requires KeysUnique(l)
    requires 0 <= lo <= k < |l|
    ensures FirstKeyFrom(l, Key(l[k]), lo) == Some(k)
    decreases k - lo
  {
    if lo < k {
      FirstKeyFromUnique(l, k, lo + 1);
    }
  }

  /** The release at position k of the sorted supported releases gets 'old' * (|l|-1-k) +
      'stable'; a release whose key is not in the list keeps its suite. */
  lemma StableLabelledMeaning(l: seq<ReleaseInfo>, r: ReleaseInfo)
    requires KeysUnique(l)
    ensures forall k :: 0 <= k < |l| ==> StableLabelled(l, 0, l[k]) == l[k].(suite := Some(SuiteName(|l| - 1 - k)))
    ensures (forall k :: 0 <= k < |l| ==> Key(l[k]) != Key(r)) ==> StableLabelled(l, 0, r) == r
  {
    forall k | 0 <= k < |l| ensures StableLabelled(l, 0, l[k]) == l[k].(suite := Some(SuiteName(|l| - 1 - k))) {
      FirstKeyFromUnique(l, k, 0);
    }
  }

  /** The supported releases of a distribution, oldest first. */
  function SupportedQuery(): Query { AllReleases.(supported := Some(true)) }

  /** The members of a query answer, read off its multiset characterisation. */
  lemma AnswerMembers(l: seq<ReleaseInfo>, rs: seq<ReleaseInfo>, q: Query, today: Date)
    requires forall r :: multiset(l)[r] == (if Matches(r, q, today) then multiset(rs)[r] else 0)
    ensures forall x :: multiset(l)[x] <= multiset(rs)[x]
    ensures forall r :: r in l <==> r in rs && Matches(r, q, today)
  {
    forall r ensures r in l <==> r in rs && Matches(r, q, today) {
      assert r in l <==> multiset(l)[r] > 0;
      assert r in rs <==> multiset(rs)[r] > 0;
    }
  }

  /** A release of the store outside `l` shares its key with no release of `l`, so the
      labelling leaves it alone. */
  lemma UnlistedKeepsSuite(l: seq<ReleaseInfo>, rs: seq<ReleaseInfo>, r: ReleaseInfo)
    requires KeysUnique(rs) && KeysUnique(l)
    requires forall x :: x in l ==> x in rs
    requires r in rs && r !in l
    ensures StableLabelled(l, 0, r) == r
  {
    forall k | 0 <= k < |l| ensures Key(l[k]) != Key(r) {
      assert l[k] in l;
      var a :| 0 <= a < |rs| && rs[a] == l[k];
      var b :| 0 <= b < |rs| && rs[b] == r;
      assert a != b;
    }
    StableLabelledMeaning(l, r);
  }

  /** What the labelling makes of a store `rs` with unique keys, given the sorted list `l` of
      its supported releases. */
  lemma StableLabellingOf(l: seq<ReleaseInfo>, rs: seq<ReleaseInfo>, today: Date)
    requires KeysUnique(rs)
    requires forall r :: multiset(l)[r] == (if Matches(r, SupportedQuery(), today) then multiset(rs)[r] else 0)
    ensures KeysUnique(l)
    ensures forall r :: r in l <==> r in rs && Supported(r, today)
    ensures forall k :: 0 <= k < |l| ==> StableLabelled(l, 0, l[k]).suite == Some(SuiteName(|l| - 1 - k))
    ensures forall r :: r in rs && !Supported(r, today) ==> StableLabelled(l, 0, r) == r
  {
    AnswerMembers(l, rs, SupportedQuery(), today);
    KeysUniqueSub(l, rs);
    forall r | r in rs && !Supported(r, today) ensures StableLabelled(l, 0, r) == r {
      UnlistedKeepsSuite(l, rs, r);
    }
    if |l| > 0 {
      StableLabelledMeaning(l, l[0]);
    }
  }

  /** In a valid distribution the labelling walks each supported release once: the supported
      releases listed from newest to oldest get 'stable', 'oldstable', 'oldoldstable', ...,
      and every release that is not supported keeps its suite. */
  lemma StableLabellingOfDistribution(d: DistInfo, today: Date)
    requires d.Valid()
    ensures d.Releases(SupportedQuery(), today).Ok?
    ensures var l := d.Releases(SupportedQuery(), today).value;
      && SortedByOrder(l) && KeysUnique(l)
      && (forall r :: r in l <==> r in d.releases && Supported(r, today))
      && (forall k :: 0 <= k < |l| ==> StableLabelled(l, 0, l[k]).suite == Some(SuiteName(|l| - 1 - k)))
      && (forall r :: r in d.releases && !Supported(r, today) ==> StableLabelled(l, 0, r) == r)
  {
    StableLabellingOf(d.Releases(SupportedQuery(), today).value, d.releases, today);
  }

  /** The loop of __init_distribs over reversed(l) zipped with 'old' * n + 'stable': the
      release with the key of l[|l| - 1 - n] gets suite 'old' * n + 'stable'. */
  method LabelNewestFirst(d: DistInfo, l: seq<ReleaseInfo>)
    requires d.Valid()
    modifies d
    ensures d.Valid()
    ensures SameButSuites(old(d.releases), d.releases)
    ensures forall i :: 0 <= i < |d.releases| ==> d.releases[i] == StableLabelled(l, 0, old(d.releases)[i])
  {
    ghost var before := d.releases;
    for n := 0 to |l|
      invariant d.Valid()
      invariant |d.releases| == |before|
      invariant forall i :: 0 <= i < |d.releases| ==> d.releases[i] == StableLabelled(l, |l| - n, before[i])
    {
      ghost var cur := d.releases;
      d.SetSuite(Key(l[|l| - 1 - n]), SuiteName(n));
      forall i | 0 <= i < |d.releases|
        ensures d.releases[i] == StableLabelled(l, |l| - (n + 1), before[i])
      {
        StableLabelledStep(l, |l| - n, before[i]);
        assert Key(cur[i]) == Key(before[i]);
      }
    }
  }

  /** The store after the stable-suite labelling: each release relabelled by its place among
      the supported releases (StableLabellingOfDistribution). */
  function StableSuites(rs: seq<ReleaseInfo>, today: Date): (t: seq<ReleaseInfo>)
    ensures SameButSuites(rs, t)
  {
    match Select(rs, SupportedQuery(), today, false)
    case Err(_) =>
      SelectAsWritten(rs, SupportedQuery(), today);
      assert false; rs
    case Ok(l) => seq(|rs|, i requires 0 <= i < |rs| => StableLabelled(l, 0, rs[i]))
  }

  /** The stable-suite labelling of __init_distribs: the supported releases, oldest first,
      labelled from the newest one on (StableLabellingOfDistribution says what that gives). */
  method LabelStableSuites(d: DistInfo, today: Date)
    requires d.Valid()
    modifies d
    ensures d.Valid()
    ensures old(d.Releases(SupportedQuery(), today)).Ok?
    ensures d.releases == StableSuites(old(d.releases), today)
    ensures forall i :: 0 <= i < |d.releases| ==>
      d.releases[i] == StableLabelled(old(d.Releases(SupportedQuery(), today)).value, 0, old(d.releases)[i])
  {
    var l := d.Releases(SupportedQuery(), today).value;
    LabelNewestFirst(d, l);
  }

  /** The first release of a sorted query answer is a matching release of the store with the
      lowest order number. */
  lemma LowestOfAnswer(l: seq<ReleaseInfo>, rs: seq<ReleaseInfo>, q: Query, today: Date)
    requires |l| > 0 && SortedByOrder(l)
    requires forall r :: multiset(l)[r] == (if Matches(r, q, today) then multiset(rs)[r] else 0)
    ensures l[0] in rs && Matches(l[0], q, today)
    ensures forall r :: r in rs && Matches(r, q, today) ==> l[0].order <= r.order
    ensures HasMatch(rs, q, today)
  {
    AnswerMembers(l, rs, q, today);
    assert l[0] in l;
    forall r | r in rs && Matches(r, q, today) ensures l[0].order <= r.order {
      var j :| 0 <= j < |l| && l[j] == r;
    }
    var i :| 0 <= i < |rs| && rs[i] == l[0];
  }

  /** An empty query answer: no release of the store matches. */
  lemma EmptyAnswer(l: seq<ReleaseInfo>, rs: seq<ReleaseInfo>, q: Query, today: Date)
    requires |l| == 0
    requires forall r :: multiset(l)[r] == (if Matches(r, q, today) then multiset(rs)[r] else 0)
    ensures !HasMatch(rs, q, today)
  {
    forall i | 0 <= i < |rs| ensures !Matches(rs[i], q, today) {
      assert multiset(rs)[rs[i]] > 0;
      assert multiset(l)[rs[i]] == 0;
    }
  }

  /** `releases(q)[0]` on the store `rs`, as written: the first release of the sorted answer;
      None when the query raises TypeError or the answer is empty (IndexError). */
  function Lowest(rs: seq<ReleaseInfo>, q: Query, today: Date): (r: Option<ReleaseInfo>)
    ensures r.Some? ==> r.value in rs && Matches(r.value, q, today)
    ensures r.Some? ==> forall x :: x in rs && Matches(x, q, today) ==> r.value.order <= x.order
    ensures !HasDateFilter(q) && q.after.None? && q.before.None? ==> (r.Some? <==> HasMatch(rs, q, today))
  {
    var res := Select(rs, q, today, false);
    if res.Err? then
      SelectAsWritten(rs, q, today);
      None
    else if |res.value| == 0 then
      EmptyAnswer(res.value, rs, q, today);
      None
    else
      LowestOfAnswer(res.value, rs, q, today);
      Some(res.value[0])
  }

  /** `d.releases(q)[0].suite = s`: labels the lowest-ordered release that matches `q`.
      False when that statement raises: IndexError on an empty result, or the query's own
      TypeError, which leaves the store as it was. */
  method LabelLowest(d: DistInfo, q: Query, today: Date, s: string) returns (ok: bool)
    requires d.Valid()
    modifies d
    ensures d.Valid()
    ensures var res := old(d.Releases(q, today));
      && (ok <==> res.Ok? && |res.value| > 0)
      && (ok ==> d.releases == WithSuite(old(d.releases), Key(res.value[0]), s))
    ensures var lowest := Lowest(old(d.releases), q, today);
      && (ok <==> lowest.Some?)
      && (ok ==> d.releases == WithSuite(old(d.releases), Key(lowest.value), s))
      && (ok ==> lowest.value in old(d.releases) && Matches(lowest.value, q, today))
      && (ok ==> forall r :: r in old(d.releases) && Matches(r, q, today) ==> lowest.value.order <= r.order)
    ensures !ok ==> d.releases == old(d.releases)
    ensures !HasDateFilter(q) && q.after.None? && q.before.None? ==> (ok <==> HasMatch(old(d.releases), q, today))
  {
    var res := d.Releases(q, today);
    if res.Err? || |res.value| == 0 {
      return false;
    }
    var l := res.value;
    d.SetSuite(Key(l[0]), s);
    ok := true;
  }

  lemma WithSuiteSameButSuites(rs: seq<ReleaseInfo>, key: (string, int), s: string)
    ensures SameButSuites(rs, WithSuite(rs, key, s))
  {
  }

  lemma SameButSuitesTransitive(a: seq<ReleaseInfo>, b: seq<ReleaseInfo>, c: seq<ReleaseInfo>)
    requires SameButSuites(a, b) && SameButSuites(b, c)
    ensures SameButSuites(a, c)
  {
  }

  /** The queries of the development-suite lookups. */
  function UnreleasedQuery(): Query { AllReleases.(released := Some(false)) }
  function CodenameQuery(c: string): Query { AllReleases.(codename := Some(c)) }

  /** The store after lines 151-153 of __init_distribs, and whether they got through:
      'testing' for the lowest unreleased release, 'unstable' for the first sid and 'rc-buggy'
      for the first experimental, each on the store the step before left; a lookup that finds
      nothing raises IndexError and leaves the store as it was at that point. */
  function DevelopmentSuites(rs: seq<ReleaseInfo>, today: Date): (seq<ReleaseInfo>, bool)
  {
    match Lowest(rs, UnreleasedQuery(), today)
    case None => (rs, false)
    case Some(testing) =>
      var s1 := WithSuite(rs, Key(testing), "testing");
      match Lowest(s1, CodenameQuery("sid"), today)
      case None => (s1, false)
      case Some(unstable) =>
        var s2 := WithSuite(s1, Key(unstable), "unstable");
        match Lowest(s2, CodenameQuery("experimental"), today)
        case None => (s2, false)
        case Some(rcBuggy) => (WithSuite(s2, Key(rcBuggy), "rc-buggy"), true)
  }

  /** Relabelling one release changes only suites, and so none of the three lookups'
      answers as to whether something matches. */
  lemma RelabelKeepsLookups(rs: seq<ReleaseInfo>, key: (string, int), s: string, today: Date)
    ensures SameButSuites(rs, WithSuite(rs, key, s))
    ensures HasMatch(rs, UnreleasedQuery(), today) <==> HasMatch(WithSuite(rs, key, s), UnreleasedQuery(), today)
    ensures HasMatch(rs, CodenameQuery("sid"), today) <==> HasMatch(WithSuite(rs, key, s), CodenameQuery("sid"), today)
    ensures HasMatch(rs, CodenameQuery("experimental"), today) <==>
      HasMatch(WithSuite(rs, key, s), CodenameQuery("experimental"), today)
  {
    var t := WithSuite(rs, key, s);
    WithSuiteSameButSuites(rs, key, s);
    HasMatchIgnoresSuites(rs, t, UnreleasedQuery(), today);
    HasMatchIgnoresSuites(rs, t, CodenameQuery("sid"), today);
    HasMatchIgnoresSuites(rs, t, CodenameQuery("experimental"), today);
  }

  /** Labelling a release of the store with 'rc-buggy' puts that suite on a release with its
      codename. */
  lemma RelabelledCodename(rs: seq<ReleaseInfo>, r: ReleaseInfo, s: string)
    requires r in rs
    ensures var t := WithSuite(rs, Key(r), s);
      exists i :: 0 <= i < |t| && t[i].codename == r.codename && t[i].suite == Some(s)
  {
    var i :| 0 <= i < |rs| && rs[i] == r;
    assert WithSuite(rs, Key(r), s)[i] == r.(suite := Some(s));
  }

  /** The development-suite labelling changes only suites, and gets through whenever each of
      the three lookups finds a release in the store it started from. */
  lemma DevelopmentSuitesMeaning(rs: seq<ReleaseInfo>, today: Date)
    ensures SameButSuites(rs, DevelopmentSuites(rs, today).0)
    ensures (&& HasMatch(rs, UnreleasedQuery(), today)
             && HasMatch(rs, CodenameQuery("sid"), today)
             && HasMatch(rs, CodenameQuery("experimental"), today)) ==> DevelopmentSuites(rs, today).1
  {
    match Lowest(rs, UnreleasedQuery(), today)
    case None =>
    case Some(testing) =>
      var s1 := WithSuite(rs, Key(testing), "testing");
      RelabelKeepsLookups(rs, Key(testing), "testing", today);
      match Lowest(s1, CodenameQuery("sid"), today)
      case None =>
      case Some(unstable) =>
        var s2 := WithSuite(s1, Key(unstable), "unstable");
        RelabelKeepsLookups(s1, Key(unstable), "unstable", today);
        SameButSuitesTransitive(rs, s1, s2);
        match Lowest(s2, CodenameQuery("experimental"), today)
        case None =>
        case Some(rcBuggy) =>
          WithSuiteSameButSuites(s2, Key(rcBuggy), "rc-buggy");
          SameButSuitesTransitive(rs, s2, WithSuite(s2, Key(rcBuggy), "rc-buggy"));
  }

  /** The development-suite labelling gets through only when each of the three lookups finds
      a release in the store it started from. */
  lemma DevelopmentSuitesNeedMatches(rs: seq<ReleaseInfo>, today: Date)
    ensures DevelopmentSuites(rs, today).1 ==>
      && HasMatch(rs, UnreleasedQuery(), today)
      && HasMatch(rs, CodenameQuery("sid"), today)
      && HasMatch(rs, CodenameQuery("experimental"), today)
  {
    if DevelopmentSuites(rs, today).1 {
      var testing := Lowest(rs, UnreleasedQuery(), today).value;
      var s1 := WithSuite(rs, Key(testing), "testing");
      RelabelKeepsLookups(rs, Key(testing), "testing", today);
      var unstable := Lowest(s1, CodenameQuery("sid"), today).value;
      var s2 := WithSuite(s1, Key(unstable), "unstable");
      RelabelKeepsLookups(s1, Key(unstable), "unstable", today);
      assert HasMatch(s2, CodenameQuery("experimental"), today);
    }
  }

  /** When the development-suite labelling gets through, an experimental release carries
      'rc-buggy'. */
  lemma DevelopmentSuitesRcBuggy(rs: seq<ReleaseInfo>, today: Date)
    ensures DevelopmentSuites(rs, today).1 ==>
      var t := DevelopmentSuites(rs, today).0;
      exists i :: 0 <= i < |t| && t[i].codename == Some("experimental") && t[i].suite == Some("rc-buggy")
  {
    if DevelopmentSuites(rs, today).1 {
      var testing := Lowest(rs, UnreleasedQuery(), today).value;
      var s1 := WithSuite(rs, Key(testing), "testing");
      var unstable := Lowest(s1, CodenameQuery("sid"), today).value;
      var s2 := WithSuite(s1, Key(unstable), "unstable");
      var rcBuggy := Lowest(s2, CodenameQuery("experimental"), today).value;
      assert rcBuggy.codename == Some("experimental");
      assert DevelopmentSuites(rs, today).0 == WithSuite(s2, Key(rcBuggy), "rc-buggy");
      RelabelledCodename(s2, rcBuggy, "rc-buggy");
    }
  }

  /** Lines 151-153 of __init_distribs: 'testing', 'unstable' and 'rc-buggy', each step
      stopping the set-up when its lookup finds nothing. */
  method LabelDevelopmentSuites(debian: DistInfo, today: Date) returns (ok: bool)
    requires debian.Valid()
    modifies debian
    ensures debian.Valid()
    ensures (debian.releases, ok) == DevelopmentSuites(old(debian.releases), today)
    ensures SameButSuites(old(debian.releases), debian.releases)
    ensures ok <==>
      && HasMatch(old(debian.releases), UnreleasedQuery(), today)
      && HasMatch(old(debian.releases), CodenameQuery("sid"), today)
      && HasMatch(old(debian.releases), CodenameQuery("experimental"), today)
    ensures ok ==>
      exists i :: (0 <= i < |debian.releases| && debian.releases[i].codename == Some("experimental") &&
                   debian.releases[i].suite == Some("rc-buggy"))
  {
    DevelopmentSuitesMeaning(debian.releases, today);
    DevelopmentSuitesNeedMatches(debian.releases, today);
    DevelopmentSuitesRcBuggy(debian.releases, today);
    ok := LabelLowest(debian, UnreleasedQuery(), today, "testing");
    if !ok { return; }
    ok := LabelLowest(debian, CodenameQuery("sid"), today, "unstable");
    if !ok { return; }
    ok := LabelLowest(debian, CodenameQuery("experimental"), today, "rc-buggy");
  }

  /** The Debian store after lines 147-153 of __init_distribs: the stable labelling, then the
      development suites on the store it leaves. */
  function DebianSuites(rs: seq<ReleaseInfo>, today: Date): (seq<ReleaseInfo>, bool)
  {
    DevelopmentSuites(StableSuites(rs, today), today)
  }

  /** Lines 147-153 of the Debian set-up: the stable suites, then the development suites. Only
      suites change; the set-up gets through exactly when each of the three lookups finds a
      release. */
  method LabelDebianSuites(debian: DistInfo, today: Date) returns (ok: bool)
    requires debian.Valid()
    modifies debian
    ensures debian.Valid()
    ensures (debian.releases, ok) == DebianSuites(old(debian.releases), today)
    ensures SameButSuites(old(debian.releases), debian.releases)
    ensures ok <==>
      && HasMatch(old(debian.releases), UnreleasedQuery(), today)
      && HasMatch(old(debian.releases), CodenameQuery("sid"), today)
      && HasMatch(old(debian.releases), CodenameQuery("experimental"), today)
    ensures ok ==>
      exists i :: (0 <= i < |debian.releases| && debian.releases[i].codename == Some("experimental") &&
                   debian.releases[i].suite == Some("rc-buggy"))
  {
    ghost var s0 := debian.releases;
    LabelStableSuites(debian, today);
    HasMatchIgnoresSuites(s0, debian.releases, UnreleasedQuery(), today);
    HasMatchIgnoresSuites(s0, debian.releases, CodenameQuery("sid"), today);
    HasMatchIgnoresSuites(s0, debian.releases, CodenameQuery("experimental"), today);
    ghost var s1 := debian.releases;
    ok := LabelDevelopmentSuites(debian, today);
    SameButSuitesTransitive(s0, s1, debian.releases);
  }

  /** The Ubuntu store after its set-up: the lowest unreleased release, if there is one, gets
      suite 'devel'; the length test means this step never fails. */
  function UbuntuSuites(rs: seq<ReleaseInfo>, today: Date): seq<ReleaseInfo>
  {
    match Lowest(rs, UnreleasedQuery(), today)
    case None => rs
    case Some(devel) => WithSuite(rs, Key(devel), "devel")
  }

  /** The Ubuntu labelling labels the lowest unreleased release and nothing else, and changes
      nothing when every release is out. */
  lemma UbuntuSuitesMeaning(rs: seq<ReleaseInfo>, today: Date)
    ensures SameButSuites(rs, UbuntuSuites(rs, today))
    ensures HasMatch(rs, UnreleasedQuery(), today) ==>
      exists i :: (0 <= i < |rs| && !Released(rs[i], today) &&
                   (forall j :: 0 <= j < |rs| && !Released(rs[j], today) ==> rs[i].order <= rs[j].order) &&
                   UbuntuSuites(rs, today) == WithSuite(rs, Key(rs[i]), "devel"))
    ensures !HasMatch(rs, UnreleasedQuery(), today) ==> UbuntuSuites(rs, today) == rs
  {
    match Lowest(rs, UnreleasedQuery(), today)
    case None =>
      assert !HasMatch(rs, UnreleasedQuery(), today);
    case Some(devel) =>
      WithSuiteSameButSuites(rs, Key(devel), "devel");
      LowestUnreleased(rs, devel, today);
  }

  /** The lowest unreleased release sits at some position of the store. */
  lemma LowestUnreleased(rs: seq<ReleaseInfo>, devel: ReleaseInfo, today: Date)
    requires devel in rs && Matches(devel, UnreleasedQuery(), today)
    requires forall x :: x in rs && Matches(x, UnreleasedQuery(), today) ==> devel.order <= x.order
    ensures exists i :: (0 <= i < |rs| && rs[i] == devel && !Released(rs[i], today) &&
                         (forall j :: 0 <= j < |rs| && !Released(rs[j], today) ==> rs[i].order <= rs[j].order))
  {
    var i :| 0 <= i < |rs| && rs[i] == devel;
    forall j | 0 <= j < |rs| && !Released(rs[j], today) ensures rs[i].order <= rs[j].order {
      assert Matches(rs[j], UnreleasedQuery(), today);
    }
  }

  /** The Ubuntu set-up: `devel = releases(released=False)`, and when it is not empty its
      first release gets suite 'devel'. */
  method LabelUbuntuDevel(ubuntu: DistInfo, today: Date)
    requires ubuntu.Valid()
    modifies ubuntu
    ensures ubuntu.Valid()
    ensures ubuntu.releases == UbuntuSuites(old(ubuntu.releases), today)
    ensures SameButSuites(old(ubuntu.releases), ubuntu.releases)
    ensures HasMatch(old(ubuntu.releases), UnreleasedQuery(), today) ==>
      exists i :: (0 <= i < |ubuntu.releases| && !Released(old(ubuntu.releases)[i], today) &&
                   ubuntu.releases[i] == old(ubuntu.releases)[i].(suite := Some("devel")))
    ensures !HasMatch(old(ubuntu.releases), UnreleasedQuery(), today) ==>
      ubuntu.releases == old(ubuntu.releases)
  {
    UbuntuSuitesMeaning(ubuntu.releases, today);
    var devel := ubuntu.Releases(UnreleasedQuery(), today).value;
    if |devel| > 0 {
      ubuntu.SetSuite(Key(devel[0]), "devel");
    }
  }
}
