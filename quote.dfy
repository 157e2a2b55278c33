/**
 * `build_quote`: the rows of the applicability matrix offered to the chosen
 * client type, left-joined one-to-one with the fee matrix, title-cased,
 * sorted by service and sub-service, and totalled.
 */
module Quote {
  import opened Optional
  import opened PyStr
  import opened Matrices

  /** The join key shared by both matrices. */
  datatype Key = Key(service: string, subService: string, clientType: string)

  /** One row of the quotation table: Service, SubService, Client Type, fee. */
  datatype QuoteLine = QuoteLine(service: string, subService: string, clientType: string, fee: real)

  datatype Quote = Quote(lines: seq<QuoteLine>, total: real)

  /** The refusal of a `validate="1:1"` merge, told apart in the order pandas tests the two sides. */
  datatype JoinError = NeitherSideUnique | LeftNotUnique | RightNotUnique

  datatype Result<T> = Success(value: T) | Failure(error: JoinError)

  function AppKey(r: ApplicabilityRow): Key { Key(r.service, r.subService, r.clientType) }

  function FeeKey(r: FeeRow): Key { Key(r.service, r.subService, r.clientType) }

  /** The query of the applicability matrix: the row is for client type `ct` and applicable. */
  predicate Offered(r: ApplicabilityRow, ct: string) { r.clientType == ct && r.applicable }

  /** The key columns of the rows offered to `ct`, in matrix order. */
  function OfferedKeys(app: seq<ApplicabilityRow>, ct: string): (ks: seq<Key>)
    ensures |ks| <= |app|
    ensures forall k :: k in ks <==> exists i :: 0 <= i < |app| && Offered(app[i], ct) && AppKey(app[i]) == k
  {
    if app == [] then []
    else
      var rest := OfferedKeys(app[1..], ct);
      assert forall k :: k in rest <==> exists i :: 1 <= i < |app| && Offered(app[i], ct) && AppKey(app[i]) == k by {
        forall k | k in rest ensures exists i :: 1 <= i < |app| && Offered(app[i], ct) && AppKey(app[i]) == k {
          var i :| 0 <= i < |app[1..]| && Offered(app[1..][i], ct) && AppKey(app[1..][i]) == k;
          assert app[i + 1] == app[1..][i];
        }
      }
      (if Offered(app[0], ct) then [AppKey(app[0])] else []) + rest
  }

  /** No element of `s` occurs twice. */
  ghost predicate Distinct<T>(s: seq<T>) {
    forall i, j :: 0 <= i < j < |s| ==> s[i] != s[j]
  }

  /** The uniqueness test of the merge on one side's key columns. */
  function Unique<T(==)>(s: seq<T>): (b: bool)
    ensures b <==> Distinct(s)
  {
    if s == [] then true
    else
      var u := Unique(s[1..]);
      assert Distinct(s) <==> s[0] !in s[1..] && Distinct(s[1..]) by {
        if s[0] in s[1..] {
          var j :| 0 <= j < |s[1..]| && s[1..][j] == s[0];
          assert s[j + 1] == s[0];
        }
        if Distinct(s) {
          forall i, j | 0 <= i < j < |s[1..]| ensures s[1..][i] != s[1..][j] {
            assert s[1..][i] == s[i + 1] && s[1..][j] == s[j + 1];
          }
        }
      }
      s[0] !in s[1..] && u
  }

  function FeeKeys(fees: seq<FeeRow>): seq<Key> {
    seq(|fees|, i requires 0 <= i < |fees| => FeeKey(fees[i]))
  }

  /** The fee of the first row of the fee matrix with key `k`, if there is one. */
  function MatchedFee(fees: seq<FeeRow>, k: Key): (r: Option<real>)
    ensures r.None? <==> forall j :: 0 <= j < |fees| ==> FeeKey(fees[j]) != k
    ensures r.Some? ==> exists j :: 0 <= j < |fees| && FeeKey(fees[j]) == k && fees[j].fee == r.value
  {
    if fees == [] then None
    else if FeeKey(fees[0]) == k then Some(fees[0].fee)
    else
      var r := MatchedFee(fees[1..], k);
      assert forall j :: 1 <= j < |fees| ==> fees[j] == fees[1..][j - 1];
      r
  }

  /** The fee a key receives from the left join: the matched fee, or 0 when there is none. */
  function QuotedFee(fees: seq<FeeRow>, k: Key): real {
    MatchedFee(fees, k).GetOr(0.0)
  }

  /** `v` is the fee the fee matrix gives key `k`: the fee of a row with that key, or 0 if no row has it. */
  ghost predicate FeeFor(fees: seq<FeeRow>, k: Key, v: real) {
    || (exists j :: 0 <= j < |fees| && FeeKey(fees[j]) == k && fees[j].fee == v)
    || ((forall j :: 0 <= j < |fees| ==> FeeKey(fees[j]) != k) && v == 0.0)
  }

  /**
   * When the fee keys are unique, the joined fee is the one fee the matrix gives
   * the key; a key without a fee row gets 0 and is kept.
   */
  lemma QuotedFeeIsTheFee(fees: seq<FeeRow>, k: Key, v: real)
    requires Distinct(FeeKeys(fees))
    ensures FeeFor(fees, k, QuotedFee(fees, k))
    ensures FeeFor(fees, k, v) ==> v == QuotedFee(fees, k)
  {
    var m := MatchedFee(fees, k);
    if m.Some? {
      var j :| 0 <= j < |fees| && FeeKey(fees[j]) == k && fees[j].fee == m.value;
      if FeeFor(fees, k, v) {
        var j' :| 0 <= j' < |fees| && FeeKey(fees[j']) == k && fees[j'].fee == v;
        var ks := FeeKeys(fees);
        assert ks[j] == k == ks[j'];
      }
    }
  }

  /** A row of the merge: the key's columns and its fee, 0 filled in where no fee matched. */
  function JoinLine(k: Key, fees: seq<FeeRow>): QuoteLine {
    QuoteLine(k.service, k.subService, k.clientType, QuotedFee(fees, k))
  }

  function LeftJoin(keys: seq<Key>, fees: seq<FeeRow>): seq<QuoteLine> {
    seq(|keys|, i requires 0 <= i < |keys| => JoinLine(keys[i], fees))
  }

  /** The display form of a line: Service and SubService title-cased, Client Type left as it is. */
  function TitleLine(l: QuoteLine): QuoteLine {
    l.(service := Title(l.service), subService := Title(l.subService))
  }

  function TitleLines(ls: seq<QuoteLine>): seq<QuoteLine> {
    seq(|ls|, i requires 0 <= i < |ls| => TitleLine(ls[i]))
  }

  /** The sort order: by Service, then by SubService, each compared as Python compares strings. */
  predicate LineLt(a: QuoteLine, b: QuoteLine) {
    StrLt(a.service, b.service) || (a.service == b.service && StrLt(a.subService, b.subService))
  }

  predicate LineLe(a: QuoteLine, b: QuoteLine) { !LineLt(b, a) }

  /** The two columns that are sorted on. */
  function SortKey(l: QuoteLine): (string, string) { (l.service, l.subService) }

  lemma LineLtIrreflexive(a: QuoteLine)
    ensures !LineLt(a, a)
  {
    StrLtIrreflexive(a.service);
    StrLtIrreflexive(a.subService);
  }

  lemma LineLtTransitive(a: QuoteLine, b: QuoteLine, c: QuoteLine)
    requires LineLt(a, b) && LineLt(b, c)
    ensures LineLt(a, c)
  {
    if StrLt(a.service, b.service) && StrLt(b.service, c.service) {
      StrLtTransitive(a.service, b.service, c.service);
    } else if a.service == b.service && b.service == c.service {
      StrLtTransitive(a.subService, b.subService, c.subService);
    }
  }

  lemma LineLtTotal(a: QuoteLine, b: QuoteLine)
    requires SortKey(a) != SortKey(b)
    ensures LineLt(a, b) || LineLt(b, a)
  {
    if a.service != b.service {
      StrLtTotal(a.service, b.service);
    } else {
      StrLtTotal(a.subService, b.subService);
    }
  }

  lemma LineLeTotal(a: QuoteLine, b: QuoteLine)
    ensures LineLe(a, b) || LineLe(b, a)
  {
    if LineLt(a, b) && LineLt(b, a) {
      LineLtTransitive(a, b, a);
      LineLtIrreflexive(a);
    }
  }

  lemma LineLeTransitive(a: QuoteLine, b: QuoteLine, c: QuoteLine)
    requires LineLe(a, b) && LineLe(b, c)
    ensures LineLe(a, c)
  {
    if LineLt(c, a) && SortKey(a) != SortKey(b) {
      LineLtTotal(a, b);
      LineLtTransitive(c, a, b);
    }
  }

  /** Ascending order, ties allowed. */
  ghost predicate Sorted(ls: seq<QuoteLine>) {
    forall i, j :: 0 <= i < j < |ls| ==> LineLe(ls[i], ls[j])
  }

  /** Ascending order without ties. */
  ghost predicate StrictlySorted(ls: seq<QuoteLine>) {
    forall i, j :: 0 <= i < j < |ls| ==> LineLt(ls[i], ls[j])
  }

  /** No two lines share their sort columns. */
  ghost predicate DistinctSortKeys(ls: seq<QuoteLine>) {
    forall i, j :: 0 <= i < j < |ls| ==> SortKey(ls[i]) != SortKey(ls[j])
  }

  lemma StrictlySortedIsSorted(ls: seq<QuoteLine>)
    requires StrictlySorted(ls)
    ensures Sorted(ls)
  {
    forall i, j | 0 <= i < j < |ls| ensures LineLe(ls[i], ls[j]) {
      if LineLt(ls[j], ls[i]) {
        LineLtTransitive(ls[i], ls[j], ls[i]);
        LineLtIrreflexive(ls[i]);
      }
    }
  }

  /** In a sorted sequence the first line is at most every later one. */
  lemma SortedHead(ls: seq<QuoteLine>, y: QuoteLine)
    requires Sorted(ls) && ls != [] && y in ls[1..]
    ensures LineLe(ls[0], y)
  {
    var m :| 0 <= m < |ls[1..]| && ls[1..][m] == y;
    assert ls[m + 1] == y;
  }

  lemma SortedCons(h: QuoteLine, t: seq<QuoteLine>)
    requires Sorted(t) && forall y :: y in t ==> LineLe(h, y)
    ensures Sorted([h] + t)
  {
    var r := [h] + t;
    forall i, j | 0 <= i < j < |r| ensures LineLe(r[i], r[j]) {
      assert r[j] == t[j - 1];
      if i > 0 {
        assert r[i] == t[i - 1];
      }
    }
  }

  lemma StrictlySortedCons(h: QuoteLine, t: seq<QuoteLine>)
    requires StrictlySorted(t) && forall y :: y in t ==> LineLt(h, y)
    ensures StrictlySorted([h] + t)
  {
    var r := [h] + t;
    forall i, j | 0 <= i < j < |r| ensures LineLt(r[i], r[j]) {
      assert r[j] == t[j - 1];
      if i > 0 {
        assert r[i] == t[i - 1];
      }
    }
  }

  function Insert(x: QuoteLine, ls: seq<QuoteLine>): (r: seq<QuoteLine>)
    ensures multiset(r) == multiset(ls) + multiset{x}
  {
    if ls == [] then [x]
    else if LineLe(x, ls[0]) then
      assert ls == [ls[0]] + ls[1..];
      [x] + ls
    else
      assert ls == [ls[0]] + ls[1..];
      [ls[0]] + Insert(x, ls[1..])
  }

  lemma InsertMember(x: QuoteLine, ls: seq<QuoteLine>, y: QuoteLine)
    requires y in Insert(x, ls)
    ensures y == x || y in ls
  {
    assert y in multiset(Insert(x, ls));
  }

  lemma {:induction false} InsertSorted(x: QuoteLine, ls: seq<QuoteLine>)
    requires Sorted(ls)
    ensures Sorted(Insert(x, ls))
  {
    if ls == [] {
    } else if LineLe(x, ls[0]) {
      forall y | y in ls ensures LineLe(x, y) {
        if y != ls[0] {
          assert y in ls[1..] by { assert ls == [ls[0]] + ls[1..]; }
          SortedHead(ls, y);
          LineLeTransitive(x, ls[0], y);
        }
      }
      SortedCons(x, ls);
    } else {
      var tail := ls[1..];
      InsertSorted(x, tail);
      LineLeTotal(x, ls[0]);
      forall y | y in Insert(x, tail) ensures LineLe(ls[0], y) {
        InsertMember(x, tail, y);
        if y != x {
          SortedHead(ls, y);
        }
      }
      SortedCons(ls[0], Insert(x, tail));
    }
  }

  /** The merged table sorted by Service and SubService (the in-place sort of the source, as a value). */
  function Sort(ls: seq<QuoteLine>): (r: seq<QuoteLine>)
    ensures multiset(r) == multiset(ls)
    ensures Sorted(r)
  {
    if ls == [] then []
    else
      var rest := Sort(ls[1..]);
      InsertSorted(ls[0], rest);
      assert ls == [ls[0]] + ls[1..];
      Insert(ls[0], rest)
  }

  lemma {:induction false} InsertStrictlySorted(x: QuoteLine, ls: seq<QuoteLine>)
    requires StrictlySorted(ls)
    requires forall y :: y in ls ==> SortKey(y) != SortKey(x)
    ensures StrictlySorted(Insert(x, ls))
  {
    StrictlySortedIsSorted(ls);
    if ls == [] {
    } else if LineLe(x, ls[0]) {
      LineLtTotal(x, ls[0]);
      forall y | y in ls ensures LineLt(x, y) {
        if y != ls[0] {
          assert y in ls[1..] by { assert ls == [ls[0]] + ls[1..]; }
          var m :| 0 <= m < |ls[1..]| && ls[1..][m] == y;
          assert ls[m + 1] == y;
          LineLtTransitive(x, ls[0], y);
        }
      }
      StrictlySortedCons(x, ls);
    } else {
      var tail := ls[1..];
      assert forall y :: y in tail ==> y in ls;
      InsertStrictlySorted(x, tail);
      LineLtTotal(x, ls[0]);
      forall y | y in Insert(x, tail) ensures LineLt(ls[0], y) {
        InsertMember(x, tail, y);
        if y != x {
          var m :| 0 <= m < |tail| && tail[m] == y;
          assert ls[m + 1] == y;
        }
      }
      StrictlySortedCons(ls[0], Insert(x, tail));
    }
  }

  lemma {:induction false} SortStrictlySorted(ls: seq<QuoteLine>)
    requires DistinctSortKeys(ls)
    ensures StrictlySorted(Sort(ls))
  {
    if ls != [] {
      var tail := ls[1..];
      assert DistinctSortKeys(tail) by {
        forall i, j | 0 <= i < j < |tail| ensures SortKey(tail[i]) != SortKey(tail[j]) {
          assert tail[i] == ls[i + 1] && tail[j] == ls[j + 1];
        }
      }
      SortStrictlySorted(tail);
      forall y | y in Sort(tail) ensures SortKey(y) != SortKey(ls[0]) {
        assert y in multiset(Sort(tail));
        var m :| 0 <= m < |tail| && tail[m] == y;
        assert ls[m + 1] == y;
      }
      InsertStrictlySorted(ls[0], Sort(tail));
    }
  }

  lemma StrictlySortedTail(a: seq<QuoteLine>)
    requires StrictlySorted(a) && a != []
    ensures StrictlySorted(a[1..])
  {
    forall i, j | 0 <= i < j < |a[1..]| ensures LineLt(a[1..][i], a[1..][j]) {
      assert a[1..][i] == a[i + 1] && a[1..][j] == a[j + 1];
    }
  }

  /** The first line of a strictly ascending ordering is its least line. */
  lemma StrictlySortedHeads(a: seq<QuoteLine>, b: seq<QuoteLine>)
    requires StrictlySorted(a) && StrictlySorted(b) && a != []
    requires multiset(a) == multiset(b)
    ensures b != [] && a[0] == b[0]
  {
    assert a[0] in multiset(b);
    var j :| 0 <= j < |b| && b[j] == a[0];
    assert b[0] in multiset(a);
    var i :| 0 <= i < |a| && a[i] == b[0];
    if j > 0 {
      if i > 0 {
        LineLtTransitive(a[0], a[i], b[j]);
      }
      LineLtIrreflexive(a[0]);
    }
  }

  lemma MultisetTail(a: seq<QuoteLine>)
    requires a != []
    ensures multiset(a[1..]) == multiset(a) - multiset{a[0]}
  {
    assert a == [a[0]] + a[1..];
    assert multiset(a) == multiset{a[0]} + multiset(a[1..]);
  }

  /**
   * Two strictly ascending orderings of the same lines are the same sequence:
   * without ties the sorted order does not depend on how it is computed.
   */
  lemma {:induction false} StrictlySortedUnique(a: seq<QuoteLine>, b: seq<QuoteLine>)
    requires StrictlySorted(a) && StrictlySorted(b)
    requires multiset(a) == multiset(b)
    ensures a == b
  {
    if a == [] {
      assert |b| == |multiset(b)| == 0;
    } else {
      StrictlySortedHeads(a, b);
      MultisetTail(a);
      MultisetTail(b);
      StrictlySortedTail(a);
      StrictlySortedTail(b);
      StrictlySortedUnique(a[1..], b[1..]);
      assert a == [a[0]] + a[1..] && b == [b[0]] + b[1..];
    }
  }

  function SumFees(ls: seq<QuoteLine>): real {
    if ls == [] then 0.0 else ls[0].fee + SumFees(ls[1..])
  }

  lemma {:induction false} SumFeesInsert(x: QuoteLine, ls: seq<QuoteLine>)
    ensures SumFees(Insert(x, ls)) == x.fee + SumFees(ls)
  {
    if ls == [] {
    } else if LineLe(x, ls[0]) {
      assert ([x] + ls)[1..] == ls;
    } else {
      SumFeesInsert(x, ls[1..]);
      assert ([ls[0]] + Insert(x, ls[1..]))[1..] == Insert(x, ls[1..]);
    }
  }

  /** Sorting does not change the sum of the fees. */
  lemma {:induction false} SumFeesSort(ls: seq<QuoteLine>)
    ensures SumFees(Sort(ls)) == SumFees(ls)
  {
    if ls != [] {
      SumFeesSort(ls[1..]);
      SumFeesInsert(ls[0], Sort(ls[1..]));
    }
  }

  /** Title-casing does not change the sum of the fees. */
  lemma {:induction false} SumFeesTitleLines(ls: seq<QuoteLine>)
    ensures SumFees(TitleLines(ls)) == SumFees(ls)
  {
    if ls != [] {
      assert TitleLines(ls)[1..] == TitleLines(ls[1..]);
      SumFeesTitleLines(ls[1..]);
    }
  }

  /** The grand total: the sum of the fee column, and 0 for an empty table. */
  function Total(lines: seq<QuoteLine>): real {
    if |lines| == 0 then 0.0 else SumFees(lines)
  }

  /**
   * `build_quote(client_name, client_type, df_app, df_fees)`: the quotation
   * table and its total, or the merge's refusal when the join keys are not
   * unique on either side.
   */
  function BuildQuote(clientType: string, app: seq<ApplicabilityRow>, fees: seq<FeeRow>): Result<Quote> {
    var ct := NormalizeStr(Some(clientType));
    var left := OfferedKeys(app, ct);
    var leftUnique := Unique(left);
    var rightUnique := Unique(FeeKeys(fees));
    if !leftUnique && !rightUnique then Failure(NeitherSideUnique)
    else if !leftUnique then Failure(LeftNotUnique)
    else if !rightUnique then Failure(RightNotUnique)
    else
      var lines := Sort(TitleLines(LeftJoin(left, fees)));
      Success(Quote(lines, Total(lines)))
  }

  /** Two rows offered to `ct` have the same key. */
  ghost predicate LeftDuplicated(app: seq<ApplicabilityRow>, ct: string) {
    exists i, j :: 0 <= i < j < |app| && Offered(app[i], ct) && Offered(app[j], ct) && AppKey(app[i]) == AppKey(app[j])
  }

  /** Two rows of the fee matrix, for any client types, have the same key. */
  ghost predicate RightDuplicated(fees: seq<FeeRow>) {
    exists i, j :: 0 <= i < j < |fees| && FeeKey(fees[i]) == FeeKey(fees[j])
  }

  lemma RightDuplicatedIff(fees: seq<FeeRow>)
    ensures Distinct(FeeKeys(fees)) <==> !RightDuplicated(fees)
  {
    var ks := FeeKeys(fees);
    if RightDuplicated(fees) {
      var i, j :| 0 <= i < j < |fees| && FeeKey(fees[i]) == FeeKey(fees[j]);
      assert ks[i] == ks[j];
    }
  }

  /** A duplicate in `app` lies in its tail, or pairs the head with a later offered row. */
  lemma LeftDuplicatedSplit(app: seq<ApplicabilityRow>, ct: string)
    requires app != [] && LeftDuplicated(app, ct)
    ensures LeftDuplicated(app[1..], ct) || (Offered(app[0], ct) && AppKey(app[0]) in OfferedKeys(app[1..], ct))
  {
    var tail := app[1..];
    var i, j :| 0 <= i < j < |app| && Offered(app[i], ct) && Offered(app[j], ct) && AppKey(app[i]) == AppKey(app[j]);
    assert app[j] == tail[j - 1];
    if i > 0 {
      assert app[i] == tail[i - 1];
    }
  }

  /** A duplicate in the tail is a duplicate in `app`. */
  lemma LeftDuplicatedTail(app: seq<ApplicabilityRow>, ct: string)
    requires app != [] && LeftDuplicated(app[1..], ct)
    ensures LeftDuplicated(app, ct)
  {
    var tail := app[1..];
    var i, j :| 0 <= i < j < |tail| && Offered(tail[i], ct) && Offered(tail[j], ct) && AppKey(tail[i]) == AppKey(tail[j]);
    assert app[i + 1] == tail[i] && app[j + 1] == tail[j];
  }

  /** An offered head whose key is offered again later is a duplicate. */
  lemma LeftDuplicatedHead(app: seq<ApplicabilityRow>, ct: string)
    requires app != [] && Offered(app[0], ct) && AppKey(app[0]) in OfferedKeys(app[1..], ct)
    ensures LeftDuplicated(app, ct)
  {
    var tail := app[1..];
    var j :| 0 <= j < |tail| && Offered(tail[j], ct) && AppKey(tail[j]) == AppKey(app[0]);
    assert app[j + 1] == tail[j];
  }

  lemma LeftDuplicatedCons(app: seq<ApplicabilityRow>, ct: string)
    requires app != []
    ensures LeftDuplicated(app, ct) <==>
              LeftDuplicated(app[1..], ct) || (Offered(app[0], ct) && AppKey(app[0]) in OfferedKeys(app[1..], ct))
  {
    if LeftDuplicated(app, ct) {
      LeftDuplicatedSplit(app, ct);
    }
    if LeftDuplicated(app[1..], ct) {
      LeftDuplicatedTail(app, ct);
    }
    if Offered(app[0], ct) && AppKey(app[0]) in OfferedKeys(app[1..], ct) {
      LeftDuplicatedHead(app, ct);
    }
  }

  /** The left side of the merge is unique exactly when no two offered rows share a key. */
  lemma {:induction false} OfferedKeysDistinct(app: seq<ApplicabilityRow>, ct: string)
    ensures Distinct(OfferedKeys(app, ct)) <==> !LeftDuplicated(app, ct)
  {
    if app != [] {
      var ks := OfferedKeys(app, ct);
      var rest := OfferedKeys(app[1..], ct);
      OfferedKeysDistinct(app[1..], ct);
      LeftDuplicatedCons(app, ct);
      if Offered(app[0], ct) {
        assert ks == [AppKey(app[0])] + rest;
        assert ks[1..] == rest;
        assert Unique(ks) == (AppKey(app[0]) !in rest && Unique(rest));
      } else {
        assert ks == rest;
      }
    }
  }

  /**
   * The merge fails exactly when a key is repeated among the offered rows or
   * anywhere in the fee matrix, and the error names the side or sides at fault.
   */
  lemma BuildQuoteFailure(clientType: string, app: seq<ApplicabilityRow>, fees: seq<FeeRow>)
    ensures var r := BuildQuote(clientType, app, fees);
            var ct := NormalizeStr(Some(clientType));
            && (r.Success? <==> !LeftDuplicated(app, ct) && !RightDuplicated(fees))
            && (r == Failure(NeitherSideUnique) <==> LeftDuplicated(app, ct) && RightDuplicated(fees))
            && (r == Failure(LeftNotUnique) <==> LeftDuplicated(app, ct) && !RightDuplicated(fees))
            && (r == Failure(RightNotUnique) <==> !LeftDuplicated(app, ct) && RightDuplicated(fees))
  {
    OfferedKeysDistinct(app, NormalizeStr(Some(clientType)));
    RightDuplicatedIff(fees);
  }

  lemma InLines(keys: seq<Key>, fees: seq<FeeRow>, l: QuoteLine)
    ensures l in Sort(TitleLines(LeftJoin(keys, fees))) <==> exists k :: k in keys && l == TitleLine(JoinLine(k, fees))
  {
    var t := TitleLines(LeftJoin(keys, fees));
    assert l in Sort(t) <==> l in t by {
      assert l in multiset(Sort(t)) <==> l in multiset(t);
    }
    if l in t {
      var j :| 0 <= j < |t| && t[j] == l;
      assert keys[j] in keys;
    }
    if exists k :: k in keys && l == TitleLine(JoinLine(k, fees)) {
      var k :| k in keys && l == TitleLine(JoinLine(k, fees));
      var j :| 0 <= j < |keys| && keys[j] == k;
      assert t[j] == l;
    }
  }

  /**
   * Every line of the quotation comes from a row offered to the normalised
   * client type, and every such row gives a line: its title-cased Service and
   * SubService, the client type as normalised, and its joined fee.
   */
  lemma BuildQuoteLines(clientType: string, app: seq<ApplicabilityRow>, fees: seq<FeeRow>)
    requires BuildQuote(clientType, app, fees).Success?
    ensures var ct := NormalizeStr(Some(clientType));
            var ls := BuildQuote(clientType, app, fees).value.lines;
            forall l :: l in ls <==>
              exists i :: 0 <= i < |app| && Offered(app[i], ct) &&
                l == QuoteLine(Title(app[i].service), Title(app[i].subService), ct, QuotedFee(fees, AppKey(app[i])))
  {
    var ct := NormalizeStr(Some(clientType));
    var keys := OfferedKeys(app, ct);
    var ls := Sort(TitleLines(LeftJoin(keys, fees)));
    assert BuildQuote(clientType, app, fees).value.lines == ls;
    forall l ensures l in ls <==>
              exists i :: 0 <= i < |app| && Offered(app[i], ct) &&
                l == QuoteLine(Title(app[i].service), Title(app[i].subService), ct, QuotedFee(fees, AppKey(app[i])))
    {
      InLines(keys, fees, l);
      if l in ls {
        var k :| k in keys && l == TitleLine(JoinLine(k, fees));
        var i :| 0 <= i < |app| && Offered(app[i], ct) && AppKey(app[i]) == k;
        assert l == QuoteLine(Title(app[i].service), Title(app[i].subService), ct, QuotedFee(fees, AppKey(app[i])));
      }
      if exists i :: 0 <= i < |app| && Offered(app[i], ct) &&
                l == QuoteLine(Title(app[i].service), Title(app[i].subService), ct, QuotedFee(fees, AppKey(app[i]))) {
        var i :| 0 <= i < |app| && Offered(app[i], ct) &&
                l == QuoteLine(Title(app[i].service), Title(app[i].subService), ct, QuotedFee(fees, AppKey(app[i])));
        var k := AppKey(app[i]);
        assert k in keys;
        assert l == TitleLine(JoinLine(k, fees));
      }
    }
  }

  /** The left join keeps every offered row exactly once: the quotation is a reordering of the merged rows. */
  lemma BuildQuoteKeepsEveryRow(clientType: string, app: seq<ApplicabilityRow>, fees: seq<FeeRow>)
    requires BuildQuote(clientType, app, fees).Success?
    ensures var keys := OfferedKeys(app, NormalizeStr(Some(clientType)));
            var ls := BuildQuote(clientType, app, fees).value.lines;
            && |ls| == |keys|
            && multiset(ls) == multiset(TitleLines(LeftJoin(keys, fees)))
  {
    var keys := OfferedKeys(app, NormalizeStr(Some(clientType)));
    var t := TitleLines(LeftJoin(keys, fees));
    assert |Sort(t)| == |multiset(Sort(t))| == |multiset(t)| == |t|;
  }

  lemma OfferedKeyNormal(app: seq<ApplicabilityRow>, ct: string, k: Key)
    requires NormalizedApplicability(app) && k in OfferedKeys(app, ct)
    ensures NoAsciiLower(k.service) && NoAsciiLower(k.subService) && k.clientType == ct
  {
    var i :| 0 <= i < |app| && Offered(app[i], ct) && AppKey(app[i]) == k;
  }

  /**
   * The quotation is in ascending order of title-cased Service, then SubService;
   * on normalised matrices there are no ties, so the order is fully determined.
   */
  lemma BuildQuoteSorted(clientType: string, app: seq<ApplicabilityRow>, fees: seq<FeeRow>)
    requires BuildQuote(clientType, app, fees).Success?
    ensures Sorted(BuildQuote(clientType, app, fees).value.lines)
    ensures NormalizedApplicability(app) ==> StrictlySorted(BuildQuote(clientType, app, fees).value.lines)
  {
    var ct := NormalizeStr(Some(clientType));
    var keys := OfferedKeys(app, ct);
    var t := TitleLines(LeftJoin(keys, fees));
    if NormalizedApplicability(app) {
      assert Distinct(keys);
      forall i, j | 0 <= i < j < |t| ensures SortKey(t[i]) != SortKey(t[j]) {
        assert keys[i] in keys && keys[j] in keys;
        OfferedKeyNormal(app, ct, keys[i]);
        OfferedKeyNormal(app, ct, keys[j]);
        TitleInjective(keys[i].service, keys[j].service);
        TitleInjective(keys[i].subService, keys[j].subService);
      }
      SortStrictlySorted(t);
    }
  }

  /** The total is the sum of the quoted fees, whatever their order. */
  lemma BuildQuoteTotal(clientType: string, app: seq<ApplicabilityRow>, fees: seq<FeeRow>)
    requires BuildQuote(clientType, app, fees).Success?
    ensures var q := BuildQuote(clientType, app, fees).value;
            && q.total == SumFees(q.lines)
            && q.total == SumFees(LeftJoin(OfferedKeys(app, NormalizeStr(Some(clientType))), fees))
  {
    var keys := OfferedKeys(app, NormalizeStr(Some(clientType)));
    var j := LeftJoin(keys, fees);
    SumFeesSort(TitleLines(j));
    SumFeesTitleLines(j);
  }

  lemma {:induction false} OfferedKeysEmpty(app: seq<ApplicabilityRow>, ct: string)
    ensures OfferedKeys(app, ct) == [] <==> forall i :: 0 <= i < |app| ==> !Offered(app[i], ct)
  {
    if app != [] {
      OfferedKeysEmpty(app[1..], ct);
      assert forall i :: 1 <= i < |app| ==> app[i] == app[1..][i - 1];
    }
  }

  /**
   * A client type with no offered rows gets an empty quotation with total 0,
   * provided the fee matrix is itself unique.
   */
  lemma BuildQuoteNoOfferedRows(clientType: string, app: seq<ApplicabilityRow>, fees: seq<FeeRow>)
    requires forall i :: 0 <= i < |app| ==> !Offered(app[i], NormalizeStr(Some(clientType)))
    requires !RightDuplicated(fees)
    ensures BuildQuote(clientType, app, fees) == Success(Quote([], 0.0))
  {
    OfferedKeysEmpty(app, NormalizeStr(Some(clientType)));
    RightDuplicatedIff(fees);
  }

  /** A successful quotation is empty exactly when no row is offered to the client type. */
  lemma BuildQuoteEmpty(clientType: string, app: seq<ApplicabilityRow>, fees: seq<FeeRow>)
    requires BuildQuote(clientType, app, fees).Success?
    ensures BuildQuote(clientType, app, fees).value.lines == [] <==>
              forall i :: 0 <= i < |app| ==> !Offered(app[i], NormalizeStr(Some(clientType)))
  {
    BuildQuoteKeepsEveryRow(clientType, app, fees);
    OfferedKeysEmpty(app, NormalizeStr(Some(clientType)));
  }

  /** The client type is normalised first: " llp" and "LLP" get the same quotation. */
  lemma BuildQuoteNormalizesClientType(clientType: string, app: seq<ApplicabilityRow>, fees: seq<FeeRow>)
    ensures BuildQuote(clientType, app, fees) == BuildQuote(NormalizeStr(Some(clientType)), app, fees)
  {
    NormalizeStrIdempotent(Some(clientType));
  }
}
