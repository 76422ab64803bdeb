/** TPC-H query 15: the suppliers with the most revenue in a quarter. */
module Query15 {
  import opened Relational

  // ---------- Dates ----------

  datatype Date = Date(year: int, month: int, day: int)

  predicate Earlier(a: Date, b: Date) {
    a.year < b.year || (a.year == b.year && (a.month < b.month || (a.month == b.month && a.day < b.day)))
  }

  function DaysIn(year: int, month: int): int {
    if month == 2 then if year % 4 == 0 && (year % 100 != 0 || year % 400 == 0) then 29 else 28
    else if month in {4, 6, 9, 11} then 30
    else 31
  }

  // dateadd(mm, n, d): the day is cut to the length of the month reached.
  function AddMonths(d: Date, n: int): Date {
    var months := d.month - 1 + n;
    var year, month := d.year + months / 12, months % 12 + 1;
    Date(year, month, if d.day > DaysIn(year, month) then DaysIn(year, month) else d.day)
  }

  /** Adding n months moves the month count by n, and the day only to fit the month. */
  lemma MonthsAdded(d: Date, n: int)
    requires 1 <= d.month <= 12 && 1 <= d.day <= DaysIn(d.year, d.month)
    ensures var r := AddMonths(d, n);
            && 12 * r.year + r.month == 12 * d.year + d.month + n
            && 1 <= r.month <= 12 && 1 <= r.day <= DaysIn(r.year, r.month)
            && (r.day == d.day || (r.day < d.day && r.day == DaysIn(r.year, r.month)))
  {
  }

  const FROM := Date(1996, 1, 1)
  const TO := Date(1996, 4, 1)

  // ---------- Tables ----------

  datatype Supplier = Supplier(suppkey: int, name: string, address: string, phone: string)
  datatype PartSupp = PartSupp(partkey: int, suppkey: int)
  // Prices and discounts are in hundredths.
  datatype LineItem = LineItem(partkey: int, suppkey: int, price: int, discount: int, shipdate: Date)

  predicate IsSupplier(suppliers: seq<Supplier>, k: int) {
    exists i :: 0 <= i < |suppliers| && suppliers[i].suppkey == k
  }

  // PRIMARY KEY (s_suppkey)
  predicate SupplierKey(suppliers: seq<Supplier>) {
    forall i, j :: 0 <= i < j < |suppliers| ==> suppliers[i].suppkey != suppliers[j].suppkey
  }

  // FOREIGN KEY (ps_suppkey)
  predicate PartSuppSupplier(suppliers: seq<Supplier>, partsupps: seq<PartSupp>) {
    forall i :: 0 <= i < |partsupps| ==> IsSupplier(suppliers, partsupps[i].suppkey)
  }

  predicate IsPartSupp(partsupps: seq<PartSupp>, partkey: int, suppkey: int) {
    exists i :: 0 <= i < |partsupps| && partsupps[i] == PartSupp(partkey, suppkey)
  }

  // FOREIGN KEY (l_partkey, l_suppkey)
  predicate LineItemPartSupp(partsupps: seq<PartSupp>, lines: seq<LineItem>) {
    forall i :: 0 <= i < |lines| ==> IsPartSupp(partsupps, lines[i].partkey, lines[i].suppkey)
  }

  // ---------- The query ----------

  // l_extendedprice * (1 - l_discount), in ten-thousandths
  function Amount(l: LineItem): int { l.price * (100 - l.discount) }

  predicate InWindow(l: LineItem) { !Earlier(l.shipdate, FROM) && Earlier(l.shipdate, TO) }

  function WindowRows(lines: seq<LineItem>): seq<(int, int)> {
    if lines == [] then []
    else
      var init, l := WindowRows(lines[..|lines| - 1]), lines[|lines| - 1];
      if InWindow(l) then init + [(l.suppkey, Amount(l))] else init
  }

  // max(total_revenue), which is NULL over no rows
  function MaxTotal(rows: seq<(int, int)>): Option<int> {
    if rows == [] then None
    else
      match MaxTotal(rows[..|rows| - 1])
      case None => Some(rows[|rows| - 1].1)
      case Some(m) => Some(if rows[|rows| - 1].1 > m then rows[|rows| - 1].1 else m)
  }

  // The columns after s_suppkey
  datatype Details = Details(name: string, address: string, phone: string, total: int)

  function SupplierRow(s: Supplier, total: int): (int, Details) {
    (s.suppkey, Details(s.name, s.address, s.phone, total))
  }

  // The revenue rows that join with one supplier
  function SupplierRows(s: Supplier, revenue: seq<(int, int)>, best: Option<int>): seq<(int, Details)> {
    if revenue == [] then []
    else
      var init, r := SupplierRows(s, revenue[..|revenue| - 1], best), revenue[|revenue| - 1];
      if s.suppkey == r.0 && best == Some(r.1) then init + [SupplierRow(s, r.1)] else init
  }

  function Join(suppliers: seq<Supplier>, revenue: seq<(int, int)>, best: Option<int>): seq<(int, Details)> {
    if suppliers == [] then []
    else Join(suppliers[..|suppliers| - 1], revenue, best) + SupplierRows(suppliers[|suppliers| - 1], revenue, best)
  }

  // ORDER BY s_suppkey
  predicate Before(a: (int, Details), b: (int, Details)) { a.0 <= b.0 }

  // The subquery written out twice
  function Result(suppliers: seq<Supplier>, lines: seq<LineItem>): seq<(int, Details)> {
    var revenue0 := GroupSum(WindowRows(lines));
    var revenue1 := GroupSum(WindowRows(lines));
    OrderBy(Before, Join(suppliers, revenue0, MaxTotal(revenue1)))
  }

  // ---------- The form with a view ----------

  predicate InView(l: LineItem) { !Earlier(l.shipdate, FROM) && Earlier(l.shipdate, AddMonths(FROM, 3)) }

  function ViewRows(lines: seq<LineItem>): seq<(int, int)> {
    if lines == [] then []
    else
      var init, l := ViewRows(lines[..|lines| - 1]), lines[|lines| - 1];
      if InView(l) then init + [(l.suppkey, Amount(l))] else init
  }

  function Revenue0(lines: seq<LineItem>): seq<(int, int)> { GroupSum(ViewRows(lines)) }

  function ViewResult(suppliers: seq<Supplier>, lines: seq<LineItem>): seq<(int, Details)> {
    OrderBy(Before, Join(suppliers, Revenue0(lines), MaxTotal(Revenue0(lines))))
  }

  lemma {:induction false} SameWindow(lines: seq<LineItem>)
    ensures ViewRows(lines) == WindowRows(lines)
  {
    if lines != [] {
      SameWindow(lines[..|lines| - 1]);
    }
  }

  /** The view form and the inlined form return the same rows, for every database. */
  lemma ViewIsInlined(suppliers: seq<Supplier>, lines: seq<LineItem>)
    ensures ViewResult(suppliers, lines) == Result(suppliers, lines)
  {
    SameWindow(lines);
  }

  // ---------- What is summed ----------

  predicate IsDate(d: Date) {
    1 <= d.month <= 12 && 1 <= d.day <= DaysIn(d.year, d.month)
  }

  /** The window is the first quarter of 1996. */
  lemma WindowIff(l: LineItem)
    requires IsDate(l.shipdate)
    ensures InWindow(l) <==> l.shipdate.year == 1996 && l.shipdate.month <= 3
  {
  }

  /** An amount is the price less the discount, once hundredths are read as such. */
  lemma AmountIs(l: LineItem)
    ensures Amount(l) as real / 10000.0 == (l.price as real / 100.0) * (1.0 - l.discount as real / 100.0)
  {
    var p, d := l.price as real, l.discount as real;
    assert Amount(l) as real == p * (100.0 - d);
  }

  // ---------- Revenue ----------

  predicate SoldBy(l: LineItem, k: int) { InWindow(l) && l.suppkey == k }

  predicate HasSales(lines: seq<LineItem>, k: int) {
    exists i :: 0 <= i < |lines| && SoldBy(lines[i], k)
  }

  // What supplier k sold in the window
  function Revenue(lines: seq<LineItem>, k: int): int {
    if lines == [] then 0
    else Revenue(lines[..|lines| - 1], k) + if SoldBy(lines[|lines| - 1], k) then Amount(lines[|lines| - 1]) else 0
  }

  lemma LastSale(lines: seq<LineItem>, k: int)
    requires lines != []
    ensures HasSales(lines, k) <==> HasSales(lines[..|lines| - 1], k) || SoldBy(lines[|lines| - 1], k)
  {
    var init := lines[..|lines| - 1];
    if i :| 0 <= i < |init| && SoldBy(init[i], k) {
      assert SoldBy(lines[i], k);
    }
    if i :| 0 <= i < |lines| && SoldBy(lines[i], k) {
      assert i < |init| ==> SoldBy(init[i], k);
    }
  }

  lemma {:induction false} WindowRowsAt(lines: seq<LineItem>, k: int)
    ensures SumAt(WindowRows(lines), k) == Revenue(lines, k)
    ensures HasKey(WindowRows(lines), k) <==> HasSales(lines, k)
  {
    if lines != [] {
      WindowRowsAt(lines[..|lines| - 1], k);
      LastSale(lines, k);
      var init, l := WindowRows(lines[..|lines| - 1]), lines[|lines| - 1];
      if InWindow(l) {
        assert WindowRows(lines)[..|init|] == init;
        HasKeyLast(WindowRows(lines), k);
      }
    }
  }

  /** The grouped rows are the suppliers with sales, each with its revenue. */
  lemma RevenueIff(lines: seq<LineItem>, k: int, total: int)
    ensures (k, total) in GroupSum(WindowRows(lines)) <==> HasSales(lines, k) && total == Revenue(lines, k)
  {
    GroupIff(WindowRows(lines), k, total);
    WindowRowsAt(lines, k);
  }

  // ---------- The maximum ----------

  predicate HasTotal(rows: seq<(int, int)>, m: int) {
    exists i :: 0 <= i < |rows| && rows[i].1 == m
  }

  predicate AllAtMost(rows: seq<(int, int)>, m: int) {
    forall r :: r in rows ==> r.1 <= m
  }

  lemma {:induction false} MaxIsGreatest(rows: seq<(int, int)>)
    ensures MaxTotal(rows).None? <==> rows == []
    ensures MaxTotal(rows).Some? ==> HasTotal(rows, MaxTotal(rows).value) && AllAtMost(rows, MaxTotal(rows).value)
  {
    if rows != [] {
      var init, last := rows[..|rows| - 1], rows[|rows| - 1];
      MaxIsGreatest(init);
      assert rows == init + [last];
      if MaxTotal(init).Some? && MaxTotal(init).value >= last.1 {
        var i :| 0 <= i < |init| && init[i].1 == MaxTotal(init).value;
        assert rows[i].1 == MaxTotal(init).value;
      } else {
        assert rows[|rows| - 1].1 == MaxTotal(rows).value;
      }
    }
  }

  // No supplier with sales sold more than m.
  ghost predicate IsTop(lines: seq<LineItem>, m: int) {
    forall k :: HasSales(lines, k) ==> Revenue(lines, k) <= m
  }

  lemma MaxIff(lines: seq<LineItem>, k: int)
    requires HasSales(lines, k)
    ensures MaxTotal(GroupSum(WindowRows(lines))) == Some(Revenue(lines, k)) <==> IsTop(lines, Revenue(lines, k))
  {
    var rows := GroupSum(WindowRows(lines));
    RevenueIff(lines, k, Revenue(lines, k));
    MaxIsGreatest(rows);
    var i :| 0 <= i < |rows| && rows[i].1 == MaxTotal(rows).value;
    var top := rows[i].0;
    RevenueIff(lines, top, MaxTotal(rows).value);
    forall j | HasSales(lines, j)
      ensures Revenue(lines, j) <= MaxTotal(rows).value
    {
      RevenueIff(lines, j, Revenue(lines, j));
    }
  }

  // ---------- The join ----------

  lemma {:induction false} SupplierRowsIff(s: Supplier, revenue: seq<(int, int)>, best: Option<int>, x: (int, Details))
    ensures x in SupplierRows(s, revenue, best)
       <==> x == SupplierRow(s, x.1.total) && (s.suppkey, x.1.total) in revenue && best == Some(x.1.total)
  {
    if revenue != [] {
      SupplierRowsIff(s, revenue[..|revenue| - 1], best, x);
      assert revenue == revenue[..|revenue| - 1] + [revenue[|revenue| - 1]];
    }
  }

  predicate JoinedFrom(s: Supplier, revenue: seq<(int, int)>, best: Option<int>, x: (int, Details)) {
    x == SupplierRow(s, x.1.total) && (s.suppkey, x.1.total) in revenue && best == Some(x.1.total)
  }

  ghost predicate Joined(suppliers: seq<Supplier>, revenue: seq<(int, int)>, best: Option<int>, x: (int, Details)) {
    exists s :: s in suppliers && JoinedFrom(s, revenue, best, x)
  }

  lemma {:induction false} JoinIff(suppliers: seq<Supplier>, revenue: seq<(int, int)>, best: Option<int>, x: (int, Details))
    ensures x in Join(suppliers, revenue, best) <==> Joined(suppliers, revenue, best, x)
  {
    if suppliers != [] {
      var init, last := suppliers[..|suppliers| - 1], suppliers[|suppliers| - 1];
      JoinIff(init, revenue, best, x);
      SupplierRowsIff(last, revenue, best, x);
      assert forall s :: s in suppliers <==> s in init || s == last;
      assert Joined(suppliers, revenue, best, x) <==> Joined(init, revenue, best, x) || JoinedFrom(last, revenue, best, x);
    }
  }

  lemma BeforeIsTotal()
    ensures TotalPreorder(Before)
  {
  }

  predicate IsWinner(s: Supplier, lines: seq<LineItem>, x: (int, Details)) {
    && x.0 == s.suppkey && x.1.name == s.name && x.1.address == s.address && x.1.phone == s.phone
    && x.1.total == Revenue(lines, s.suppkey) && HasSales(lines, s.suppkey)
  }

  /** The result holds exactly the suppliers with sales in the window whose revenue no other
      supplier with sales exceeds, each with that revenue. */
  lemma WinnersIff(suppliers: seq<Supplier>, lines: seq<LineItem>, x: (int, Details))
    ensures x in Result(suppliers, lines) <==>
              exists s :: s in suppliers && IsWinner(s, lines, x) && IsTop(lines, Revenue(lines, s.suppkey))
  {
    var revenue := GroupSum(WindowRows(lines));
    var best := MaxTotal(revenue);
    OrderByKeepsRows(Before, Join(suppliers, revenue, best), x);
    JoinIff(suppliers, revenue, best, x);
    forall s | s in suppliers
      ensures JoinedFrom(s, revenue, best, x) <==> IsWinner(s, lines, x) && IsTop(lines, Revenue(lines, s.suppkey))
    {
      WinnerIff(s, lines, x);
    }
  }

  lemma WinnerIff(s: Supplier, lines: seq<LineItem>, x: (int, Details))
    ensures JoinedFrom(s, GroupSum(WindowRows(lines)), MaxTotal(GroupSum(WindowRows(lines))), x)
       <==> IsWinner(s, lines, x) && IsTop(lines, Revenue(lines, s.suppkey))
  {
    RevenueIff(lines, s.suppkey, x.1.total);
    if HasSales(lines, s.suppkey) {
      MaxIff(lines, s.suppkey);
    }
  }

  // ---------- When there is a winner ----------

  predicate AnySale(lines: seq<LineItem>) {
    exists i :: 0 <= i < |lines| && InWindow(lines[i])
  }

  /** Some supplier wins exactly when something was shipped in the window: the foreign keys
      lead from the line item through partsupp to the supplier. */
  lemma NonemptyIff(suppliers: seq<Supplier>, partsupps: seq<PartSupp>, lines: seq<LineItem>)
    requires PartSuppSupplier(suppliers, partsupps) && LineItemPartSupp(partsupps, lines)
    ensures Result(suppliers, lines) != [] <==> AnySale(lines)
  {
    var revenue := GroupSum(WindowRows(lines));
    if Result(suppliers, lines) != [] {
      var x := Result(suppliers, lines)[0];
      WinnersIff(suppliers, lines, x);
      var s :| s in suppliers && IsWinner(s, lines, x);
      var i :| 0 <= i < |lines| && SoldBy(lines[i], s.suppkey);
      assert InWindow(lines[i]);
    }
    if i :| 0 <= i < |lines| && InWindow(lines[i]) {
      assert SoldBy(lines[i], lines[i].suppkey);
      var top := TopSupplier(lines, lines[i].suppkey);
      var s := SupplierOf(suppliers, partsupps, lines, top);
      assert IsWinner(s, lines, SupplierRow(s, Revenue(lines, top)));
      WinnersIff(suppliers, lines, SupplierRow(s, Revenue(lines, top)));
    }
  }

  lemma TopSupplier(lines: seq<LineItem>, k: int) returns (top: int)
    requires HasSales(lines, k)
    ensures HasSales(lines, top) && IsTop(lines, Revenue(lines, top))
  {
    var rows := GroupSum(WindowRows(lines));
    RevenueIff(lines, k, Revenue(lines, k));
    MaxIsGreatest(rows);
    var i :| 0 <= i < |rows| && rows[i].1 == MaxTotal(rows).value;
    top := rows[i].0;
    RevenueIff(lines, top, MaxTotal(rows).value);
    MaxIff(lines, top);
  }

  lemma SupplierOf(suppliers: seq<Supplier>, partsupps: seq<PartSupp>, lines: seq<LineItem>, k: int) returns (s: Supplier)
    requires PartSuppSupplier(suppliers, partsupps) && LineItemPartSupp(partsupps, lines) && HasSales(lines, k)
    ensures s in suppliers && s.suppkey == k
  {
    var i :| 0 <= i < |lines| && SoldBy(lines[i], k);
    var j :| 0 <= j < |partsupps| && partsupps[j] == PartSupp(lines[i].partkey, k);
    var n :| 0 <= n < |suppliers| && suppliers[n].suppkey == partsupps[j].suppkey;
    s := suppliers[n];
  }

  // ---------- Order ----------

  lemma {:induction false} AtMostOneRow(s: Supplier, revenue: seq<(int, int)>, best: Option<int>)
    requires KeysOnce(revenue)
    ensures |SupplierRows(s, revenue, best)| <= 1
    ensures forall i :: 0 <= i < |SupplierRows(s, revenue, best)| ==> SupplierRows(s, revenue, best)[i].0 == s.suppkey
    ensures !HasKey(revenue, s.suppkey) ==> SupplierRows(s, revenue, best) == []
  {
    if revenue != [] {
      var init, r := revenue[..|revenue| - 1], revenue[|revenue| - 1];
      AtMostOneRow(s, init, best);
      HasKeyLast(revenue, s.suppkey);
      LastKeyIsNew(revenue);
    }
  }

  lemma {:induction false} JoinOnce(suppliers: seq<Supplier>, revenue: seq<(int, int)>, best: Option<int>)
    requires SupplierKey(suppliers) && KeysOnce(revenue)
    ensures KeysOnce(Join(suppliers, revenue, best))
    ensures forall i :: 0 <= i < |Join(suppliers, revenue, best)| ==> IsSupplier(suppliers, Join(suppliers, revenue, best)[i].0)
  {
    if suppliers != [] {
      var init, s := suppliers[..|suppliers| - 1], suppliers[|suppliers| - 1];
      JoinOnce(init, revenue, best);
      AtMostOneRow(s, revenue, best);
      assert forall i :: 0 <= i < |init| ==> init[i] == suppliers[i];
    }
  }

  /** The rows come by strictly rising s_suppkey, so no supplier is repeated. */
  lemma SuppliersRise(suppliers: seq<Supplier>, lines: seq<LineItem>, i: nat, j: nat)
    requires SupplierKey(suppliers) && i < j < |Result(suppliers, lines)|
    ensures Result(suppliers, lines)[i].0 < Result(suppliers, lines)[j].0
  {
    var revenue := GroupSum(WindowRows(lines));
    var rows := Join(suppliers, revenue, MaxTotal(revenue));
    BeforeIsTotal();
    OrderByIsSorted(Before, rows);
    GroupsOnce(WindowRows(lines));
    JoinOnce(suppliers, revenue, MaxTotal(revenue));
    OrderByKeepsOnce(Before, rows);
    var result := OrderBy(Before, rows);
    assert Before(result[i], result[j]);
  }
}
