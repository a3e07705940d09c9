/**
  The order-tape compiler used as a parity oracle (benchmarks/compare_phase9_parity.py,
  `_legacy_order_arrays`): orders are stably sorted by bar, flattened into parallel arrays and
  indexed by a per-bar pointer built with a counting pass and an in-place prefix sum.
*/
module OrderTape {
  import opened Shared
  import opened Matching

  /** A pandas timestamp: naive wall time, or wall time with an offset from UTC, in nanoseconds. */
  datatype Timestamp = Naive(wall: int) | Aware(wall: int, offset: int)
  {
    /** Naive timestamps are localized to UTC, aware ones converted. */
    function Utc(): int {
      match this
      case Naive(wall) => wall
      case Aware(wall, offset) => wall - offset
    }
  }

  datatype OrderType = MARKET | LIMIT | STOP_MARKET | STOP_LIMIT

  datatype TimeInForce = GTC | IOC | FOK | GTD

  datatype Intent = Intent(
    timestamp: Timestamp, symbol: string, side: Side, orderType: OrderType,
    qty: real, price: Option<real>, tif: TimeInForce)

  // ---------------------------------------------------------------- bars

  /** The bisection of `searchsorted(side="left")`, which takes the index to be sorted and does not check it. */
  function Bisect(idx: seq<int>, t: int, lo: nat, hi: nat): (r: nat)
    requires lo <= hi <= |idx|
    ensures lo <= r <= hi
    decreases hi - lo
  {
    if lo == hi then lo
    else
      var mid := lo + (hi - lo) / 2;
      if idx[mid] < t then Bisect(idx, t, mid + 1, hi) else Bisect(idx, t, lo, mid)
  }

  function SearchSorted(idx: seq<int>, t: int): (r: nat)
    ensures r <= |idx|
  {
    Bisect(idx, t, 0, |idx|)
  }

  ghost predicate Sorted(idx: seq<int>) {
    forall i, j :: 0 <= i < j < |idx| ==> idx[i] <= idx[j]
  }

  /** On a sorted index bisection finds the first position whose value is at or after `t`, or the end. */
  lemma SearchSortedExactly(idx: seq<int>, t: int)
    requires Sorted(idx)
    ensures var r := SearchSorted(idx, t);
            (forall i :: 0 <= i < r ==> idx[i] < t) && (forall i :: r <= i < |idx| ==> t <= idx[i])
  {
    BisectSplits(idx, t, 0, |idx|);
  }

  lemma {:induction false} BisectSplits(idx: seq<int>, t: int, lo: nat, hi: nat)
    requires Sorted(idx) && lo <= hi <= |idx|
    requires (forall i :: 0 <= i < lo ==> idx[i] < t) && (forall i :: hi <= i < |idx| ==> t <= idx[i])
    ensures var r := Bisect(idx, t, lo, hi);
            (forall i :: 0 <= i < r ==> idx[i] < t) && (forall i :: r <= i < |idx| ==> t <= idx[i])
    decreases hi - lo
  {
    if lo < hi {
      var mid := lo + (hi - lo) / 2;
      assert lo <= mid < hi;
      if idx[mid] < t {
        assert forall i :: 0 <= i < mid + 1 ==> idx[i] < t;
        hide Sorted;
        BisectSplits(idx, t, mid + 1, hi);
      } else {
        assert forall i :: mid <= i < |idx| ==> t <= idx[i];
        hide Sorted;
        BisectSplits(idx, t, lo, mid);
      }
    }
  }

  /** The first bar at or after the timestamp; nothing when the timestamp is after the data. */
  function BarIndex(idx: seq<int>, ts: Timestamp): Option<nat> {
    var pos := SearchSorted(idx, ts.Utc());
    if pos >= |idx| then None else Some(pos)
  }

  ghost predicate InData(idx: seq<int>, orders: seq<Intent>) {
    forall p :: 0 <= p < |orders| ==> BarIndex(idx, orders[p].timestamp).Some?
  }

  /** The bar of every order, in input order. */
  ghost function Bars(idx: seq<int>, orders: seq<Intent>): (bars: seq<nat>)
    requires InData(idx, orders)
    ensures |bars| == |orders| && forall p :: 0 <= p < |bars| ==> bars[p] < |idx|
  {
    seq(|orders|, p requires 0 <= p < |orders| => BarIndex(idx, orders[p].timestamp).value)
  }

  // ---------------------------------------------------------------- sorting against scanning

  predicate Below(s: seq<nat>, n: nat) {
    forall i :: 0 <= i < |s| ==> s[i] < n
  }

  function Insert(bars: seq<nat>, s: seq<nat>, p: nat): (r: seq<nat>)
    requires p < |bars| && Below(s, |bars|)
    ensures |r| == |s| + 1
  {
    if s == [] || bars[p] < bars[s[0]] then [p] + s else [s[0]] + Insert(bars, s[1..], p)
  }

  /** Python's stable `sorted` over the positions below `n`, keyed by bar. */
  function StableSort(bars: seq<nat>, n: nat): (s: seq<nat>)
    requires n <= |bars|
    ensures |s| == n && Below(s, n)
  {
    if n == 0 then []
    else
      InsertBelow(bars, StableSort(bars, n - 1), n - 1, n);
      Insert(bars, StableSort(bars, n - 1), n - 1)
  }

  lemma {:induction false} InsertBelow(bars: seq<nat>, s: seq<nat>, p: nat, n: nat)
    requires p < n <= |bars| && Below(s, n)
    ensures Below(Insert(bars, s, p), n)
  {
    if s != [] && bars[s[0]] <= bars[p] {
      InsertBelow(bars, s[1..], p, n);
    }
  }

  /** The positions below `n` whose order belongs to bar `b`, in input order. */
  function Bucket(bars: seq<nat>, n: nat, b: nat): (s: seq<nat>)
    requires n <= |bars|
    ensures forall i :: 0 <= i < |s| ==> s[i] < n && bars[s[i]] == b
  {
    if n == 0 then [] else Bucket(bars, n - 1, b) + if bars[n - 1] == b then [n - 1] else []
  }

  /** The naive scan: for each bar below `upto`, the orders of that bar. */
  function Scan(bars: seq<nat>, n: nat, upto: nat): (s: seq<nat>)
    requires n <= |bars|
    ensures forall i :: 0 <= i < |s| ==> s[i] < n && bars[s[i]] < upto
  {
    if upto == 0 then [] else Scan(bars, n, upto - 1) + Bucket(bars, n, upto - 1)
  }

  lemma IncreasingAppend(s: seq<nat>, x: nat)
    requires Increasing(s) && Below(s, x)
    ensures Increasing(s + [x])
  {
  }

  /** A bucket lists its orders in input order. */
  lemma {:induction false} BucketIncreasing(bars: seq<nat>, n: nat, b: nat)
    requires n <= |bars|
    ensures Increasing(Bucket(bars, n, b))
  {
    if n == 0 {
    } else {
      BucketIncreasing(bars, n - 1, b);
      var init := Bucket(bars, n - 1, b);
      IncreasingAppend(init, n - 1);
      assert init + [] == init;
    }
  }

  lemma {:induction false} BucketComplete(bars: seq<nat>, n: nat, b: nat, q: nat)
    requires q < n <= |bars| && bars[q] == b
    ensures q in Bucket(bars, n, b)
  {
    if q < n - 1 {
      BucketComplete(bars, n - 1, b, q);
    }
  }

  lemma {:induction false} InsertBetween(bars: seq<nat>, a: seq<nat>, c: seq<nat>, p: nat)
    requires p < |bars| && Below(a, |bars|) && Below(c, |bars|) && Below(a + c, |bars|)
    requires forall i :: 0 <= i < |a| ==> bars[a[i]] <= bars[p]
    requires forall i :: 0 <= i < |c| ==> bars[p] < bars[c[i]]
    ensures Insert(bars, a + c, p) == a + [p] + c
  {
    if a == [] {
      assert a + c == c;
    } else {
      assert (a + c)[1..] == a[1..] + c;
      InsertBetween(bars, a[1..], c, p);
      assert a + [p] + c == [a[0]] + (a[1..] + [p] + c);
    }
  }

  /** The buckets from `from` on. */
  function ScanFrom(bars: seq<nat>, n: nat, from: nat, upto: nat): (s: seq<nat>)
    requires n <= |bars| && from <= upto
    ensures forall i :: 0 <= i < |s| ==> s[i] < n && from <= bars[s[i]]
  {
    if from == upto then [] else ScanFrom(bars, n, from, upto - 1) + Bucket(bars, n, upto - 1)
  }

  lemma {:induction false} ScanSplit(bars: seq<nat>, n: nat, from: nat, upto: nat)
    requires n <= |bars| && from <= upto
    ensures Scan(bars, n, upto) == Scan(bars, n, from) + ScanFrom(bars, n, from, upto)
    decreases upto
  {
    hide Bucket;
    if from < upto {
      ScanSplit(bars, n, from, upto - 1);
      Associative(Scan(bars, n, from), ScanFrom(bars, n, from, upto - 1), Bucket(bars, n, upto - 1));
    } else {
      assert Scan(bars, n, from) + [] == Scan(bars, n, from);
    }
  }

  lemma Associative(a: seq<nat>, b: seq<nat>, c: seq<nat>)
    ensures a + b + c == a + (b + c)
  {
  }

  lemma BucketSkips(bars: seq<nat>, n: nat, b: nat)
    requires 0 < n <= |bars| && bars[n - 1] != b
    ensures Bucket(bars, n, b) == Bucket(bars, n - 1, b)
  {
  }

  /** A new last position does not touch the buckets of other bars. */
  lemma {:induction false} ScanSkips(bars: seq<nat>, n: nat, upto: nat)
    requires 0 < n <= |bars| && upto <= bars[n - 1]
    ensures Scan(bars, n, upto) == Scan(bars, n - 1, upto)
  {
    hide Bucket;
    if upto == 0 {
    } else {
      ScanSkips(bars, n, upto - 1);
      BucketSkips(bars, n, upto - 1);
    }
  }

  lemma {:induction false} ScanFromSkips(bars: seq<nat>, n: nat, from: nat, upto: nat)
    requires 0 < n <= |bars| && bars[n - 1] < from <= upto
    ensures ScanFrom(bars, n, from, upto) == ScanFrom(bars, n - 1, from, upto)
    decreases upto
  {
    hide Bucket;
    if from < upto {
      ScanFromSkips(bars, n, from, upto - 1);
      BucketSkips(bars, n, upto - 1);
    }
  }

  /** The stable sort by bar is the naive scan over bars. */
  lemma {:induction false} SortIsScan(bars: seq<nat>, n: nat, nBars: nat)
    requires n <= |bars| && forall q :: 0 <= q < n ==> bars[q] < nBars
    ensures StableSort(bars, n) == Scan(bars, n, nBars)
    decreases n
  {
    if n == 0 {
      EmptyScan(bars, nBars);
    } else {
      SortIsScan(bars, n - 1, nBars);
      SortStep(bars, n, nBars);
    }
  }

  lemma SortStep(bars: seq<nat>, n: nat, nBars: nat)
    requires 0 < n <= |bars| && bars[n - 1] < nBars
    requires StableSort(bars, n - 1) == Scan(bars, n - 1, nBars)
    ensures StableSort(bars, n) == Scan(bars, n, nBars)
  {
    hide Scan;
    hide ScanFrom;
    hide StableSort;
    var b := bars[n - 1];
    ScanSplit(bars, n - 1, b + 1, nBars);
    ScanSplit(bars, n, b + 1, nBars);
    ScanFromSkips(bars, n, b + 1, nBars);
    LastBucket(bars, n);
    Inserted(bars, n, Scan(bars, n - 1, b + 1), ScanFrom(bars, n - 1, b + 1, nBars));
  }

  lemma Inserted(bars: seq<nat>, n: nat, a: seq<nat>, c: seq<nat>)
    requires 0 < n <= |bars| && StableSort(bars, n - 1) == a + c
    requires forall i :: 0 <= i < |a| ==> a[i] < n - 1 && bars[a[i]] <= bars[n - 1]
    requires forall i :: 0 <= i < |c| ==> c[i] < n - 1 && bars[n - 1] < bars[c[i]]
    ensures StableSort(bars, n) == a + [n - 1] + c
  {
    hide Insert;
    InsertBetween(bars, a, c, n - 1);
  }

  /** The last position joins the end of its own bar's bucket. */
  lemma LastBucket(bars: seq<nat>, n: nat)
    requires 0 < n <= |bars|
    ensures var b := bars[n - 1]; Scan(bars, n, b + 1) == Scan(bars, n - 1, b + 1) + [n - 1]
  {
    var b := bars[n - 1];
    ScanSkips(bars, n, b);
    Associative(Scan(bars, n - 1, b), Bucket(bars, n - 1, b), [n - 1]);
  }

  lemma {:induction false} EmptyScan(bars: seq<nat>, upto: nat)
    ensures Scan(bars, 0, upto) == []
  {
    if upto == 0 {
    } else {
      EmptyScan(bars, upto - 1);
    }
  }

  // ---------------------------------------------------------------- the compiled index

  /** The pointer array: how many orders lie in bars before each bar. */
  function Pointers(bars: seq<nat>, nBars: nat): seq<int> {
    seq(nBars + 1, b requires 0 <= b <= nBars => |Scan(bars, |bars|, b)|)
  }

  /** The order arrays of one compiled tape. */
  datatype Tape = Tape(
    ptr: array<int>, symbol: array<int>, side: array<int>, orderType: array<int>,
    qty: array<real>, price: array<real>, tif: array<int>, original: array<nat>)

  datatype Outcome = Compiled(tape: Tape) | AfterData | UnknownSymbol

  ghost predicate Describes(o: Intent, cols: map<string, int>, t: Tape, k: nat)
    reads t.symbol, t.side, t.orderType, t.qty, t.price, t.tif
    requires k < t.symbol.Length && k < t.side.Length && k < t.orderType.Length
    requires k < t.qty.Length && k < t.price.Length && k < t.tif.Length
  {
    && o.symbol in cols
    && t.symbol[k] == cols[o.symbol]
    && t.side[k] == (match o.side case Buy => 1 case Sell => -1)
    && t.orderType[k] == (match o.orderType case MARKET => 0 case _ => 1)
    && t.qty[k] == o.qty
    && t.price[k] == (match o.price case None => 0.0 case Some(price) => price)
    && t.tif[k] == (match o.tif case GTC => 0 case IOC => 1 case FOK => 2 case GTD => 3)
  }

  /** How many of the first `k` bars equal `b`. */
  function Count(bars: seq<nat>, k: nat, b: nat): nat
    requires k <= |bars|
  {
    if k == 0 then 0 else Count(bars, k - 1, b) + if bars[k - 1] == b then 1 else 0
  }

  method CountAndPrefix(orderBar: seq<nat>, nBars: nat) returns (ptr: array<int>)
    requires forall k :: 0 <= k < |orderBar| ==> orderBar[k] < nBars
    ensures fresh(ptr) && ptr.Length == nBars + 1 && ptr[0] == 0
    ensures forall b :: 0 <= b < nBars ==> ptr[b + 1] == ptr[b] + Count(orderBar, |orderBar|, b)
  {
    ptr := new int[nBars + 1](_ => 0);
    for k := 0 to |orderBar|
      invariant ptr[0] == 0
      invariant forall b :: 0 <= b < nBars ==> ptr[b + 1] == Count(orderBar, k, b)
    {
      ptr[orderBar[k] + 1] := ptr[orderBar[k] + 1] + 1;
    }
    for i := 1 to nBars + 1
      invariant ptr[0] == 0
      invariant forall b :: 0 <= b < i - 1 ==> ptr[b + 1] == ptr[b] + Count(orderBar, |orderBar|, b)
      invariant forall b :: i - 1 <= b < nBars ==> ptr[b + 1] == Count(orderBar, |orderBar|, b)
    {
      ptr[i] := ptr[i] + ptr[i - 1];
    }
  }

  /** The bars of a list of positions. */
  function BarsOf(bars: seq<nat>, s: seq<nat>): (r: seq<nat>)
    requires Below(s, |bars|)
    ensures |r| == |s|
  {
    seq(|s|, k requires 0 <= k < |s| => bars[s[k]])
  }

  /** The sort key of every order; fails on the first timestamp after the data. */
  method KeyOrders(idx: seq<int>, orders: seq<Intent>) returns (bars: Option<seq<nat>>)
    ensures bars.Some? <==> InData(idx, orders)
    ensures bars.Some? ==> bars.value == Bars(idx, orders)
  {
    var keys: seq<nat> := [];
    for p := 0 to |orders|
      invariant |keys| == p
      invariant forall q :: 0 <= q < p ==> BarIndex(idx, orders[q].timestamp) == Some(keys[q])
    {
      var bar := BarIndex(idx, orders[p].timestamp);
      if bar.None? {
        return None;
      }
      keys := keys + [bar.value];
    }
    return Some(keys);
  }

  ghost predicate SizedFor(t: Tape, n: nat) {
    && t.symbol.Length == t.side.Length == t.orderType.Length == n
    && t.qty.Length == t.price.Length == t.tif.Length == t.original.Length == n
  }

  /** No two columns of one type are the same array. */
  ghost predicate Separate(t: Tape) {
    && t.symbol != t.side && t.symbol != t.orderType && t.symbol != t.tif
    && t.side != t.orderType && t.side != t.tif && t.orderType != t.tif && t.qty != t.price
  }

  /** Writes one order into row `k` of the preallocated arrays. */
  method WriteRow(t: Tape, k: nat, position: nat, o: Intent, cols: map<string, int>)
    requires SizedFor(t, t.symbol.Length) && k < t.symbol.Length && o.symbol in cols
    requires Separate(t)
    modifies t.symbol, t.side, t.orderType, t.qty, t.price, t.tif, t.original
    ensures Describes(o, cols, t, k) && t.original[k] == position
    ensures forall j :: 0 <= j < k ==> t.original[j] == old(t.original[j])
    ensures forall j, q :: 0 <= j < k && old(Describes(q, cols, t, j)) ==> Describes(q, cols, t, j)
  {
    t.symbol[k] := cols[o.symbol];
    t.side[k] := if o.side == Buy then 1 else -1;
    t.orderType[k] := if o.orderType == MARKET then 0 else 1;
    t.qty[k] := o.qty;
    t.price[k] := if o.price.None? then 0.0 else o.price.value;
    t.tif[k] := match o.tif case GTC => 0 case IOC => 1 case FOK => 2 case GTD => 3;
    t.original[k] := position;
  }

  /** Fills the arrays in sorted order; fails on the first unknown symbol. */
  method FillRows(t: Tape, orders: seq<Intent>, cols: map<string, int>, sorted: seq<nat>) returns (ok: bool)
    requires SizedFor(t, |sorted|) && Below(sorted, |orders|)
    requires Separate(t)
    modifies t.symbol, t.side, t.orderType, t.qty, t.price, t.tif, t.original
    ensures ok <==> forall k :: 0 <= k < |sorted| ==> orders[sorted[k]].symbol in cols
    ensures ok ==> t.original[..] == sorted
    ensures ok ==> forall k :: 0 <= k < |sorted| ==> Describes(orders[sorted[k]], cols, t, k)
  {
    hide Describes;
    for k := 0 to |sorted|
      invariant forall j :: 0 <= j < k ==> t.original[j] == sorted[j] && orders[sorted[j]].symbol in cols
      invariant forall j :: 0 <= j < k ==> Describes(orders[sorted[j]], cols, t, j)
    {
      var order := orders[sorted[k]];
      if order.symbol !in cols {
        return false;
      }
      WriteRow(t, k, sorted[k], order, cols);
    }
    return true;
  }

  /** The pointer array, from the bars of the sorted orders. */
  method BuildPointers(bars: seq<nat>, nBars: nat, sorted: seq<nat>) returns (ptr: array<int>)
    requires forall p :: 0 <= p < |bars| ==> bars[p] < nBars
    requires sorted == Scan(bars, |bars|, nBars)
    ensures fresh(ptr) && ptr[..] == Pointers(bars, nBars)
  {
    hide Scan;
    hide Count;
    var orderBar := BarsOf(bars, sorted);
    ptr := CountAndPrefix(orderBar, nBars);
    PrefixIsPointers(bars, nBars, ptr[..]);
  }

  /** The compiled tape: its index is the naive scan, and each row describes the order it came from. */
  ghost predicate Compiles(t: Tape, idx: seq<int>, orders: seq<Intent>, cols: map<string, int>)
    requires InData(idx, orders)
    reads t.ptr, t.symbol, t.side, t.orderType, t.qty, t.price, t.tif, t.original
  {
    var bars := Bars(idx, orders);
    var scan := Scan(bars, |bars|, |idx|);
    && t.ptr[..] == Pointers(bars, |idx|)
    && t.original[..] == scan
    && SizedFor(t, |scan|)
    && forall k :: 0 <= k < |scan| ==> Describes(orders[scan[k]], cols, t, k)
  }

  /** Every row of the columns describes the order it came from. */
  ghost predicate ColumnsMatch(t: Tape, orders: seq<Intent>, cols: map<string, int>)
    reads t.symbol, t.side, t.orderType, t.qty, t.price, t.tif, t.original
  {
    && SizedFor(t, |orders|)
    && forall k :: 0 <= k < |orders| ==> t.original[k] < |orders| && Describes(orders[t.original[k]], cols, t, k)
  }

  lemma DescribedColumns(t: Tape, idx: seq<int>, orders: seq<Intent>, cols: map<string, int>)
    requires InData(idx, orders) && Compiles(t, idx, orders, cols)
    ensures ColumnsMatch(t, orders, cols)
  {
    var bars := Bars(idx, orders);
    var scan := Scan(bars, |bars|, |idx|);
    SortIsScan(bars, |bars|, |idx|);
    hide Scan;
    hide Bars;
    hide Describes;
    forall k | 0 <= k < |orders|
      ensures t.original[k] < |orders| && Describes(orders[t.original[k]], cols, t, k)
    {
      assert t.original[..][k] == scan[k];
      assert Describes(orders[scan[k]], cols, t, k);
    }
  }

  /** The sum of side times quantity over some rows, as an engine adds the tape up. */
  function Net(side: seq<int>, qty: seq<real>, lo: nat, hi: nat): real
    requires lo <= hi <= |side| && hi <= |qty|
  {
    if lo == hi then 0.0 else Net(side, qty, lo, hi - 1) + side[hi - 1] as real * qty[hi - 1]
  }

  /** What the orders behind some rows ask for on one side. */
  function Asked(orders: seq<Intent>, original: seq<nat>, side: Side, lo: nat, hi: nat): real
    requires lo <= hi <= |original| && Below(original, |orders|)
  {
    if lo == hi then 0.0
    else
      var o := orders[original[hi - 1]];
      Asked(orders, original, side, lo, hi - 1) + if o.side == side then o.qty else 0.0
  }

  /** Over any rows of a compiled tape, and so over any bar, the signed sum is what to buy less what to sell. */
  lemma {:induction false} SignedSum(t: Tape, orders: seq<Intent>, cols: map<string, int>, lo: nat, hi: nat)
    requires ColumnsMatch(t, orders, cols) && lo <= hi <= |orders|
    ensures Below(t.original[..], |orders|)
    ensures Net(t.side[..], t.qty[..], lo, hi)
            == Asked(orders, t.original[..], Buy, lo, hi) - Asked(orders, t.original[..], Sell, lo, hi)
    decreases hi
  {
    assert forall k :: 0 <= k < |orders| ==> t.original[..][k] == t.original[k];
    if lo == hi {
    } else {
      SignedSum(t, orders, cols, lo, hi - 1);
      assert Describes(orders[t.original[hi - 1]], cols, t, hi - 1);
    }
  }

  /** Market orders are coded 0 and all others 1; the time in force as its position in GTC, IOC, FOK, GTD. */
  lemma CodesMean(t: Tape, orders: seq<Intent>, cols: map<string, int>, k: nat)
    requires ColumnsMatch(t, orders, cols) && k < |orders|
    ensures var o := orders[t.original[k]];
            && (t.side[k] == 1 <==> o.side.Buy?) && (t.side[k] == -1 <==> o.side.Sell?)
            && (t.orderType[k] == 0 <==> o.orderType.MARKET?) && (t.orderType[k] == 1 <==> !o.orderType.MARKET?)
            && (t.tif[k] == 0 <==> o.tif.GTC?) && (t.tif[k] == 1 <==> o.tif.IOC?)
            && (t.tif[k] == 2 <==> o.tif.FOK?) && (t.tif[k] == 3 <==> o.tif.GTD?)
            && t.symbol[k] == cols[o.symbol] && t.qty[k] == o.qty
            && (o.price.Some? ==> t.price[k] == o.price.value) && (o.price.None? ==> t.price[k] == 0.0)
  {
    assert Describes(orders[t.original[k]], cols, t, k);
  }

  method Compile(idx: seq<int>, orders: seq<Intent>, cols: map<string, int>) returns (r: Outcome)
    ensures r.AfterData? <==> !InData(idx, orders)
    ensures r.UnknownSymbol? <==> InData(idx, orders) && exists p :: 0 <= p < |orders| && orders[p].symbol !in cols
    ensures r.Compiled? ==> Compiles(r.tape, idx, orders, cols)
    ensures r.Compiled? ==> ColumnsMatch(r.tape, orders, cols)
  {
    hide *;
    var keyed := KeyOrders(idx, orders);
    if keyed.None? {
      return AfterData;
    }
    var bars := keyed.value;
    var sorted := StableSort(bars, |orders|);
    SortIsScan(bars, |orders|, |idx|);
    var t := Allocate(|orders|);
    var ok := FillRows(t, orders, cols, sorted);
    if !ok {
      return UnknownSymbol;
    }
    AllSymbolsKnown(orders, cols, bars, |idx|);
    var ptr := BuildPointers(bars, |idx|, sorted);
    r := Compiled(t.(ptr := ptr));
    CompiledTape(t.(ptr := ptr), t, idx, orders, cols);
    DescribedColumns(t.(ptr := ptr), idx, orders, cols);
  }

  method Allocate(n: nat) returns (t: Tape)
    ensures SizedFor(t, n) && Separate(t)
    ensures fresh(t.symbol) && fresh(t.side) && fresh(t.orderType) && fresh(t.tif)
    ensures fresh(t.qty) && fresh(t.price) && fresh(t.original)
  {
    var symbol, side, orderType, tif := new int[n], new int[n], new int[n], new int[n];
    var qty, price, original := new real[n], new real[n], new nat[n];
    t := Tape(symbol, symbol, side, orderType, qty, price, tif, original);
  }

  /** The pointer array joins the filled columns. */
  lemma CompiledTape(u: Tape, t: Tape, idx: seq<int>, orders: seq<Intent>, cols: map<string, int>)
    requires InData(idx, orders) && u == t.(ptr := u.ptr)
    requires var bars := Bars(idx, orders);
             var scan := Scan(bars, |bars|, |idx|);
             && SizedFor(t, |scan|)
             && u.ptr[..] == Pointers(bars, |idx|) && t.original[..] == scan
             && forall k :: 0 <= k < |scan| ==> Describes(orders[scan[k]], cols, t, k)
    ensures Compiles(u, idx, orders, cols)
  {
    hide Scan;
    hide Pointers;
    var bars := Bars(idx, orders);
    var scan := Scan(bars, |bars|, |idx|);
    forall k | 0 <= k < |scan| ensures Describes(orders[scan[k]], cols, u, k) {
      assert Describes(orders[scan[k]], cols, t, k);
    }
  }

  lemma AllSymbolsKnown(orders: seq<Intent>, cols: map<string, int>, bars: seq<nat>, nBars: nat)
    requires |bars| == |orders| && forall p :: 0 <= p < |bars| ==> bars[p] < nBars
    requires var s := Scan(bars, |bars|, nBars); forall k :: 0 <= k < |s| ==> orders[s[k]].symbol in cols
    ensures forall p :: 0 <= p < |orders| ==> orders[p].symbol in cols
  {
    forall p: nat | p < |orders| ensures orders[p].symbol in cols {
      EveryPositionScanned(bars, |bars|, nBars, p);
    }
  }

  lemma {:induction false} EveryPositionScanned(bars: seq<nat>, n: nat, upto: nat, p: nat)
    requires n <= |bars| && p < n && bars[p] < upto
    ensures p in Scan(bars, n, upto)
  {
    hide Bucket;
    if bars[p] < upto - 1 {
      EveryPositionScanned(bars, n, upto - 1, p);
    } else {
      BucketComplete(bars, n, upto - 1, p);
    }
  }

  lemma {:induction false} CountConcat(a: seq<nat>, c: seq<nat>, b: nat)
    ensures Count(a + c, |a + c|, b) == Count(a, |a|, b) + Count(c, |c|, b)
  {
    if c == [] {
      assert a + c == a;
    } else {
      var init := c[..|c| - 1];
      CountConcat(a, init, b);
      assert (a + c)[..|a + c| - 1] == a + init;
      CountPrefix(a + c, |a + c| - 1, b);
      CountPrefix(c, |c| - 1, b);
    }
  }

  lemma {:induction false} CountPrefix(s: seq<nat>, k: nat, b: nat)
    requires k <= |s|
    ensures Count(s[..k], k, b) == Count(s, k, b)
    decreases k
  {
    if k == 0 {
    } else {
      CountPrefix(s, k - 1, b);
      CountPrefix(s[..k], k - 1, b);
      assert s[..k][..k - 1] == s[..k - 1];
    }
  }

  lemma {:induction false} CountConstant(s: seq<nat>, k: nat, v: nat, b: nat)
    requires k <= |s| && forall i :: 0 <= i < k ==> s[i] == v
    ensures Count(s, k, b) == if v == b then k else 0
  {
    if k == 0 {
    } else {
      CountConstant(s, k - 1, v, b);
    }
  }

  /** How often bar `b` occurs among the bars of the scan. */
  function ScanCount(bars: seq<nat>, upto: nat, b: nat): nat {
    var ob := BarsOf(bars, Scan(bars, |bars|, upto));
    Count(ob, |ob|, b)
  }

  lemma ScanCountStep(bars: seq<nat>, upto: nat, b: nat)
    requires upto > 0
    ensures ScanCount(bars, upto, b)
            == ScanCount(bars, upto - 1, b) + if b == upto - 1 then |Bucket(bars, |bars|, b)| else 0
  {
    hide Count;
    hide Bucket;
    hide BarsOf;
    CountBucket(bars, Scan(bars, |bars|, upto - 1), upto - 1, b);
  }

  /** Counting the bars of the scan counts each bucket. */
  lemma {:induction false} CountScan(bars: seq<nat>, upto: nat, b: nat)
    ensures ScanCount(bars, upto, b) == if b < upto then |Bucket(bars, |bars|, b)| else 0
    decreases upto
  {
    hide *;
    if upto == 0 {
      NothingCounted(bars, b);
    } else {
      CountScan(bars, upto - 1, b);
      ScanCountStep(bars, upto, b);
    }
  }

  lemma NothingCounted(bars: seq<nat>, b: nat)
    ensures ScanCount(bars, 0, b) == 0
  {
  }

  lemma CountBucket(bars: seq<nat>, before: seq<nat>, c: nat, b: nat)
    requires Below(before, |bars|) && Below(before + Bucket(bars, |bars|, c), |bars|)
    ensures var x, z := BarsOf(bars, before), BarsOf(bars, before + Bucket(bars, |bars|, c));
            Count(z, |z|, b) == Count(x, |x|, b) + if b == c then |Bucket(bars, |bars|, c)| else 0
  {
    var x, y := BarsOf(bars, before), BarsOf(bars, Bucket(bars, |bars|, c));
    assert BarsOf(bars, before + Bucket(bars, |bars|, c)) == x + y;
    CountConcat(x, y, b);
    CountConstant(y, |y|, c, b);
  }

  lemma PrefixIsPointers(bars: seq<nat>, nBars: nat, ptr: seq<int>)
    requires forall q :: 0 <= q < |bars| ==> bars[q] < nBars
    requires |ptr| == nBars + 1 && ptr[0] == 0
    requires forall b :: 0 <= b < nBars ==> ptr[b + 1] == ptr[b] + ScanCount(bars, nBars, b)
    ensures ptr == Pointers(bars, nBars)
  {
    hide Scan;
    hide ScanCount;
    forall b: nat | b <= nBars ensures ptr[b] == |Scan(bars, |bars|, b)| {
      PointerAt(bars, nBars, ptr, b);
    }
  }

  lemma {:induction false} PointerAt(bars: seq<nat>, nBars: nat, ptr: seq<int>, b: nat)
    requires |ptr| == nBars + 1 && ptr[0] == 0 && b <= nBars
    requires forall c :: 0 <= c < nBars ==> ptr[c + 1] == ptr[c] + ScanCount(bars, nBars, c)
    ensures ptr[b] == |Scan(bars, |bars|, b)|
    decreases b
  {
    hide ScanCount;
    hide Bucket;
    if b == 0 {
    } else {
      var c := b - 1;
      PointerAt(bars, nBars, ptr, c);
      CountScan(bars, nBars, c);
      assert ptr[c + 1] == ptr[c] + |Bucket(bars, |bars|, c)|;
    }
  }

  // ---------------------------------------------------------------- what the index means

  lemma PointerBounds(bars: seq<nat>, nBars: nat, b: nat)
    requires b < nBars && forall q :: 0 <= q < |bars| ==> bars[q] < nBars
    ensures var ptr := Pointers(bars, nBars);
            && ptr[0] == 0 && ptr[nBars] == |bars| == |Scan(bars, |bars|, nBars)|
            && 0 <= ptr[b] <= ptr[b + 1] == ptr[b] + |Bucket(bars, |bars|, b)| <= |bars|
  {
    hide StableSort;
    hide Bucket;
    hide ScanFrom;
    SortIsScan(bars, |bars|, nBars);
    ScanSplit(bars, |bars|, b + 1, nBars);
    assert |Scan(bars, |bars|, b + 1)| == |Scan(bars, |bars|, b)| + |Bucket(bars, |bars|, b)|;
    assert Scan(bars, |bars|, 0) == [];
    hide Scan;
  }

  /** The pointers rise from 0 to the number of orders, and each slice is exactly one bar's bucket. */
  lemma SliceIsBucket(bars: seq<nat>, nBars: nat, b: nat)
    requires b < nBars && forall q :: 0 <= q < |bars| ==> bars[q] < nBars
    ensures var ptr, original := Pointers(bars, nBars), Scan(bars, |bars|, nBars);
            && ptr[0] == 0 && ptr[nBars] == |bars| == |original|
            && 0 <= ptr[b] <= ptr[b + 1] <= |bars|
            && original[ptr[b]..ptr[b + 1]] == Bucket(bars, |bars|, b)
  {
    PointerBounds(bars, nBars, b);
    ScanSplit(bars, |bars|, b + 1, nBars);
    var a, c, rest := Scan(bars, |bars|, b), Bucket(bars, |bars|, b), ScanFrom(bars, |bars|, b + 1, nBars);
    hide ScanFrom;
    hide Bucket;
    assert Scan(bars, |bars|, b + 1) == a + c;
    MiddleSlice(a, c, rest);
  }

  lemma MiddleSlice(a: seq<nat>, c: seq<nat>, rest: seq<nat>)
    ensures (a + c + rest)[|a|..|a| + |c|] == c
  {
  }

  /** A timestamp has no bar exactly when all of the data lie before it. */
  lemma AfterTheData(idx: seq<int>, ts: Timestamp)
    requires Sorted(idx)
    ensures BarIndex(idx, ts).None? <==> forall i :: 0 <= i < |idx| ==> idx[i] < ts.Utc()
  {
    SearchSortedExactly(idx, ts.Utc());
    hide SearchSorted;
    if BarIndex(idx, ts).Some? {
      assert ts.Utc() <= idx[BarIndex(idx, ts).value];
    }
  }

  lemma FirstAtOrAfter(idx: seq<int>, ts: Timestamp, b: nat)
    requires Sorted(idx) && BarIndex(idx, ts).Some? && b < |idx|
    ensures BarIndex(idx, ts) == Some(b) <==> ts.Utc() <= idx[b] && forall i :: 0 <= i < b ==> idx[i] < ts.Utc()
  {
    SearchSortedExactly(idx, ts.Utc());
    hide SearchSorted;
    var r := BarIndex(idx, ts).value;
    assert idx[r] >= ts.Utc();
    assert b < r ==> idx[b] < ts.Utc();
  }

  /** One instant lands on the same bar, whether its timestamp is written in UTC or with any offset. */
  lemma OneInstantOneBar(idx: seq<int>, utc: int, offset: int)
    ensures BarIndex(idx, Naive(utc)) == BarIndex(idx, Aware(utc + offset, offset))
  {
  }

  /** A slice holds exactly the orders whose first bar at or after their timestamp is `b`, in input order. */
  lemma BucketMeaning(idx: seq<int>, orders: seq<Intent>, b: nat, p: nat)
    requires Sorted(idx) && InData(idx, orders) && b < |idx| && p < |orders|
    ensures Increasing(Bucket(Bars(idx, orders), |orders|, b))
    ensures p in Bucket(Bars(idx, orders), |orders|, b) <==>
              var t := match orders[p].timestamp case Naive(wall) => wall case Aware(wall, offset) => wall - offset;
              t <= idx[b] && forall i :: 0 <= i < b ==> idx[i] < t
  {
    var bars := Bars(idx, orders);
    BucketIncreasing(bars, |orders|, b);
    if bars[p] == b {
      BucketComplete(bars, |orders|, b, p);
    }
    assert BarIndex(idx, orders[p].timestamp) == Some(bars[p]);
    FirstAtOrAfter(idx, orders[p].timestamp, b);
    hide BarIndex;
  }

  /** Every order appears exactly once. */
  lemma OriginalIsPermutation(bars: seq<nat>, nBars: nat)
    requires forall q :: 0 <= q < |bars| ==> bars[q] < nBars
    ensures var original := Scan(bars, |bars|, nBars);
            && |original| == |bars|
            && (forall q :: q in original <==> 0 <= q < |bars|)
            && (forall i, j :: 0 <= i < j < |original| ==> original[i] != original[j])
  {
    SortIsScan(bars, |bars|, nBars);
    ScanOrdered(bars, |bars|, nBars);
    forall q: nat | q < |bars| ensures q in Scan(bars, |bars|, nBars) {
      EveryPositionScanned(bars, |bars|, nBars, q);
    }
  }

  ghost predicate Ordered(bars: seq<nat>, s: seq<nat>)
    requires Below(s, |bars|)
  {
    forall i, j :: 0 <= i < j < |s| ==>
      bars[s[i]] < bars[s[j]] || (bars[s[i]] == bars[s[j]] && s[i] < s[j])
  }

  lemma OrderedConcat(bars: seq<nat>, a: seq<nat>, c: seq<nat>, b: nat)
    requires Below(a, |bars|) && Below(c, |bars|) && Below(a + c, |bars|)
    requires Ordered(bars, a) && Increasing(c)
    requires forall i :: 0 <= i < |a| ==> bars[a[i]] < b
    requires forall i :: 0 <= i < |c| ==> bars[c[i]] == b
    ensures Ordered(bars, a + c)
  {
  }

  /** The scan is ordered by bar, then by input position. */
  lemma {:induction false} ScanOrdered(bars: seq<nat>, n: nat, upto: nat)
    requires n <= |bars|
    ensures Ordered(bars, Scan(bars, n, upto))
    decreases upto
  {
    if upto == 0 {
    } else {
      hide Ordered;
      hide Bucket;
      hide Increasing;
      ScanOrdered(bars, n, upto - 1);
      BucketIncreasing(bars, n, upto - 1);
      var a, c := Scan(bars, n, upto - 1), Bucket(bars, n, upto - 1);
      assert Scan(bars, n, upto) == a + c;
      hide Scan;
      OrderedConcat(bars, a, c, upto - 1);
    }
  }

  /** The orders between two pointers. */
  function Slice(original: seq<nat>, lo: int, hi: int): seq<nat> {
    if 0 <= lo <= hi <= |original| then original[lo..hi] else []
  }

  /** What an engine reading the index bar by bar sees. */
  function Replay(ptr: seq<int>, original: seq<nat>, upto: nat): seq<nat>
    requires upto < |ptr|
  {
    if upto == 0 then [] else Replay(ptr, original, upto - 1) + Slice(original, ptr[upto - 1], ptr[upto])
  }

  lemma SliceOfBar(bars: seq<nat>, nBars: nat, b: nat)
    requires b < nBars && forall q :: 0 <= q < |bars| ==> bars[q] < nBars
    ensures var ptr := Pointers(bars, nBars);
            Slice(Scan(bars, |bars|, nBars), ptr[b], ptr[b + 1]) == Bucket(bars, |bars|, b)
  {
    hide Bucket;
    hide Pointers;
    hide Scan;
    SliceIsBucket(bars, nBars, b);
  }

  /** Replaying the compiled index bar by bar visits the orders of the naive scan, in its order. */
  lemma {:induction false} ReplayIsScan(bars: seq<nat>, nBars: nat, upto: nat)
    requires upto <= nBars && forall q :: 0 <= q < |bars| ==> bars[q] < nBars
    ensures Replay(Pointers(bars, nBars), Scan(bars, |bars|, nBars), upto) == Scan(bars, |bars|, upto)
    decreases upto
  {
    hide Bucket;
    hide Pointers;
    hide Slice;
    if upto == 0 {
    } else {
      ReplayIsScan(bars, nBars, upto - 1);
      SliceOfBar(bars, nBars, upto - 1);
    }
  }
}
