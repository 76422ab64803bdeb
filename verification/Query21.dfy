/** TPC-H query 21: suppliers who alone kept an order waiting. */
module Query21 {
  import opened Relational

  // The columns that the query reads; dates are day numbers.
  datatype Supplier = Supplier(suppkey: int, name: string, nationkey: int)
  datatype LineItem = LineItem(orderkey: int, linenumber: int, suppkey: int, commitdate: int, receiptdate: int)
  datatype Order = Order(orderkey: int, status: char)
  datatype Nation = Nation(nationkey: int, name: string)
  datatype Db = Db(suppliers: seq<Supplier>, lines: seq<LineItem>, orders: seq<Order>, nations: seq<Nation>)

  // PRIMARY KEY (s_suppkey)
  predicate SupplierKey(t: seq<Supplier>) {
    forall i, j :: 0 <= i < j < |t| ==> t[i].suppkey != t[j].suppkey
  }

  // PRIMARY KEY (o_orderkey)
  predicate OrderKey(t: seq<Order>) {
    forall i, j :: 0 <= i < j < |t| ==> t[i].orderkey != t[j].orderkey
  }

  // PRIMARY KEY (n_nationkey)
  predicate NationKey(t: seq<Nation>) {
    forall i, j :: 0 <= i < j < |t| ==> t[i].nationkey != t[j].nationkey
  }

  predicate PrimaryKeys(db: Db) {
    SupplierKey(db.suppliers) && OrderKey(db.orders) && NationKey(db.nations)
  }

  // ---------- The query ----------

  predicate Late(l: LineItem) { l.receiptdate > l.commitdate }

  // Two lines of one order from different suppliers
  predicate Rival(l1: LineItem, l2: LineItem) { l2.orderkey == l1.orderkey && l2.suppkey != l1.suppkey }

  predicate ExistsRival(lines: seq<LineItem>, l1: LineItem) {
    exists i :: 0 <= i < |lines| && Rival(l1, lines[i])
  }

  predicate ExistsLateRival(lines: seq<LineItem>, l1: LineItem) {
    exists i :: 0 <= i < |lines| && Rival(l1, lines[i]) && Late(lines[i])
  }

  predicate Where(lines: seq<LineItem>, s: Supplier, l1: LineItem, o: Order, n: Nation) {
    && s.suppkey == l1.suppkey
    && o.orderkey == l1.orderkey
    && o.status == 'F'
    && Late(l1)
    && ExistsRival(lines, l1)
    && !ExistsLateRival(lines, l1)
    && s.nationkey == n.nationkey
    && n.name == "SAUDI ARABIA"
  }

  function JoinNations(db: Db, l1: LineItem, s: Supplier, o: Order, nations: seq<Nation>): seq<(string, int)> {
    if nations == [] then []
    else JoinNations(db, l1, s, o, nations[..|nations| - 1])
         + if Where(db.lines, s, l1, o, nations[|nations| - 1]) then [(s.name, 1)] else []
  }

  function JoinOrders(db: Db, l1: LineItem, s: Supplier, orders: seq<Order>): seq<(string, int)> {
    if orders == [] then []
    else JoinOrders(db, l1, s, orders[..|orders| - 1]) + JoinNations(db, l1, s, orders[|orders| - 1], db.nations)
  }

  function JoinSuppliers(db: Db, l1: LineItem, suppliers: seq<Supplier>): seq<(string, int)> {
    if suppliers == [] then []
    else JoinSuppliers(db, l1, suppliers[..|suppliers| - 1]) + JoinOrders(db, l1, suppliers[|suppliers| - 1], db.orders)
  }

  // The rows of the four-way join, as (s_name, 1) for count(*)
  function JoinLines(db: Db, lines: seq<LineItem>): seq<(string, int)> {
    if lines == [] then []
    else JoinLines(db, lines[..|lines| - 1]) + JoinSuppliers(db, lines[|lines| - 1], db.suppliers)
  }

  // ORDER BY numwait DESC, s_name
  predicate Before(a: (string, int), b: (string, int)) {
    a.1 > b.1 || (a.1 == b.1 && StringLe(a.0, b.0))
  }

  function Unlimited(db: Db): seq<(string, int)> {
    OrderBy(Before, GroupSum(JoinLines(db, db.lines)))
  }

  // LIMIT 100
  function Result(db: Db): seq<(string, int)> {
    if |Unlimited(db)| <= 100 then Unlimited(db) else Unlimited(db)[..100]
  }

  // ---------- Which lines count ----------

  function SuppliersOf(lines: seq<LineItem>, orderkey: int): set<int> {
    set i | 0 <= i < |lines| && lines[i].orderkey == orderkey :: lines[i].suppkey
  }

  function LateSuppliersOf(lines: seq<LineItem>, orderkey: int): set<int> {
    set i | 0 <= i < |lines| && lines[i].orderkey == orderkey && lines[i].receiptdate > lines[i].commitdate :: lines[i].suppkey
  }

  predicate Finished(orders: seq<Order>, orderkey: int) {
    exists i :: 0 <= i < |orders| && orders[i].orderkey == orderkey && orders[i].status == 'F'
  }

  predicate FromNation(nations: seq<Nation>, s: Supplier) {
    exists i :: 0 <= i < |nations| && s.nationkey == nations[i].nationkey && nations[i].name == "SAUDI ARABIA"
  }

  predicate IsSupplierOf(db: Db, s: Supplier, l: LineItem) {
    s.suppkey == l.suppkey && FromNation(db.nations, s)
  }

  predicate SoldFromNation(db: Db, suppliers: seq<Supplier>, l: LineItem) {
    exists i :: 0 <= i < |suppliers| && IsSupplierOf(db, suppliers[i], l)
  }

  // A late line of a finished order with at least two suppliers, only one of them late,
  // and that one in the chosen nation
  predicate Waits(db: Db, l: LineItem) {
    && l.receiptdate > l.commitdate
    && Finished(db.orders, l.orderkey)
    && |SuppliersOf(db.lines, l.orderkey)| >= 2
    && |LateSuppliersOf(db.lines, l.orderkey)| == 1
    && SoldFromNation(db, db.suppliers, l)
  }

  lemma SingletonIff<T>(s: set<T>, x: T)
    requires x in s
    ensures |s| == 1 <==> forall y :: y in s ==> y == x
    ensures |s| >= 2 <==> exists y :: y in s && y != x
  {
    var rest := s - {x};
    assert |s| == |rest| + 1;
    if rest != {} {
      var y :| y in rest;
      assert y in s && y != x && |rest| > 0;
    } else {
      assert forall y :: y in s ==> y in rest || y == x;
    }
  }

  /** The two subqueries count suppliers: EXISTS asks for two, NOT EXISTS for a single late one. */
  lemma SubqueriesCount(lines: seq<LineItem>, l: LineItem)
    requires l in lines && Late(l)
    ensures ExistsRival(lines, l) <==> |SuppliersOf(lines, l.orderkey)| >= 2
    ensures !ExistsLateRival(lines, l) <==> |LateSuppliersOf(lines, l.orderkey)| == 1
  {
    var all, late := SuppliersOf(lines, l.orderkey), LateSuppliersOf(lines, l.orderkey);
    var i :| 0 <= i < |lines| && lines[i] == l;
    assert l.suppkey in all && l.suppkey in late;
    SingletonIff(all, l.suppkey);
    SingletonIff(late, l.suppkey);
    if j :| 0 <= j < |lines| && Rival(l, lines[j]) {
      assert lines[j].suppkey in all;
    }
    if j :| 0 <= j < |lines| && Rival(l, lines[j]) && Late(lines[j]) {
      assert lines[j].suppkey in late;
    }
  }

  // ---------- The join never repeats a line ----------

  predicate LinePasses(db: Db, l: LineItem) {
    Late(l) && ExistsRival(db.lines, l) && !ExistsLateRival(db.lines, l)
  }

  lemma LastNation(nations: seq<Nation>, s: Supplier)
    requires nations != []
    ensures var init, n := nations[..|nations| - 1], nations[|nations| - 1];
            FromNation(nations, s) <==> FromNation(init, s) || (s.nationkey == n.nationkey && n.name == "SAUDI ARABIA")
    ensures NationKey(nations) ==> !(FromNation(nations[..|nations| - 1], s) && s.nationkey == nations[|nations| - 1].nationkey)
  {
    var init := nations[..|nations| - 1];
    assert forall i :: 0 <= i < |init| ==> init[i] == nations[i];
  }

  lemma {:induction false} NationsOnce(db: Db, l: LineItem, s: Supplier, o: Order, nations: seq<Nation>)
    requires NationKey(nations)
    ensures JoinNations(db, l, s, o, nations)
         == if s.suppkey == l.suppkey && o.orderkey == l.orderkey && o.status == 'F' && LinePasses(db, l)
             && FromNation(nations, s)
            then [(s.name, 1)] else []
  {
    if nations != [] {
      NationsOnce(db, l, s, o, nations[..|nations| - 1]);
      LastNation(nations, s);
    }
  }

  lemma LastOrder(orders: seq<Order>, k: int)
    requires orders != []
    ensures var init, o := orders[..|orders| - 1], orders[|orders| - 1];
            Finished(orders, k) <==> Finished(init, k) || (o.orderkey == k && o.status == 'F')
    ensures OrderKey(orders) ==> !(Finished(orders[..|orders| - 1], k) && orders[|orders| - 1].orderkey == k)
  {
    var init := orders[..|orders| - 1];
    assert forall i :: 0 <= i < |init| ==> init[i] == orders[i];
  }

  lemma {:induction false} OrdersOnce(db: Db, l: LineItem, s: Supplier, orders: seq<Order>)
    requires NationKey(db.nations) && OrderKey(orders)
    ensures JoinOrders(db, l, s, orders)
         == if s.suppkey == l.suppkey && Finished(orders, l.orderkey) && LinePasses(db, l) && FromNation(db.nations, s)
            then [(s.name, 1)] else []
  {
    if orders != [] {
      OrdersOnce(db, l, s, orders[..|orders| - 1]);
      NationsOnce(db, l, s, orders[|orders| - 1], db.nations);
      LastOrder(orders, l.orderkey);
    }
  }

  // The name of the supplier with key k
  function NameOf(suppliers: seq<Supplier>, k: int): string {
    if suppliers == [] then ""
    else if suppliers[|suppliers| - 1].suppkey == k then suppliers[|suppliers| - 1].name
    else NameOf(suppliers[..|suppliers| - 1], k)
  }

  /** By the primary key it is the name of whichever row has that key. */
  lemma {:induction false} NameIs(suppliers: seq<Supplier>, i: nat)
    requires SupplierKey(suppliers) && i < |suppliers|
    ensures NameOf(suppliers, suppliers[i].suppkey) == suppliers[i].name
  {
    if i < |suppliers| - 1 {
      NameIs(suppliers[..|suppliers| - 1], i);
    }
  }

  lemma LastSupplier(db: Db, suppliers: seq<Supplier>, l: LineItem)
    requires suppliers != []
    ensures var init, s := suppliers[..|suppliers| - 1], suppliers[|suppliers| - 1];
            SoldFromNation(db, suppliers, l) <==> SoldFromNation(db, init, l) || IsSupplierOf(db, s, l)
    ensures SupplierKey(suppliers) && SoldFromNation(db, suppliers[..|suppliers| - 1], l)
            ==> suppliers[|suppliers| - 1].suppkey != l.suppkey
  {
    var init := suppliers[..|suppliers| - 1];
    assert forall i :: 0 <= i < |init| ==> init[i] == suppliers[i];
  }

  lemma {:induction false} SuppliersOnce(db: Db, l: LineItem, suppliers: seq<Supplier>)
    requires PrimaryKeys(db) && SupplierKey(suppliers)
    ensures JoinSuppliers(db, l, suppliers)
         == if Finished(db.orders, l.orderkey) && LinePasses(db, l) && SoldFromNation(db, suppliers, l)
            then [(NameOf(suppliers, l.suppkey), 1)] else []
  {
    if suppliers != [] {
      SuppliersOnce(db, l, suppliers[..|suppliers| - 1]);
      OrdersOnce(db, l, suppliers[|suppliers| - 1], db.orders);
      LastSupplier(db, suppliers, l);
    }
  }

  /** A line of the table joins into one row if it waits, under its supplier's name, and into none otherwise. */
  lemma LineJoinsOnce(db: Db, l: LineItem)
    requires PrimaryKeys(db) && l in db.lines
    ensures JoinSuppliers(db, l, db.suppliers) == if Waits(db, l) then [(NameOf(db.suppliers, l.suppkey), 1)] else []
  {
    SuppliersOnce(db, l, db.suppliers);
    if Late(l) {
      SubqueriesCount(db.lines, l);
    }
  }

  // ---------- The counts ----------

  // The waiting lines, by position
  function Waiting(db: Db, lines: seq<LineItem>): set<int> {
    set i | 0 <= i < |lines| && Waits(db, lines[i])
  }

  predicate WaitsFor(db: Db, l: LineItem, name: string) {
    Waits(db, l) && NameOf(db.suppliers, l.suppkey) == name
  }

  // The lines that wait for a supplier of that name
  function WaitingFor(db: Db, lines: seq<LineItem>, name: string): set<int> {
    set i | 0 <= i < |lines| && WaitsFor(db, lines[i], name)
  }

  lemma LastWaiting(db: Db, lines: seq<LineItem>)
    requires lines != []
    ensures |Waiting(db, lines)| == |Waiting(db, lines[..|lines| - 1])| + if Waits(db, lines[|lines| - 1]) then 1 else 0
  {
    var init, last := Waiting(db, lines[..|lines| - 1]), |lines| - 1;
    assert Waiting(db, lines) == if Waits(db, lines[last]) then init + {last} else init;
  }

  lemma LastWaitingFor(db: Db, lines: seq<LineItem>, name: string)
    requires lines != []
    ensures |WaitingFor(db, lines, name)|
         == |WaitingFor(db, lines[..|lines| - 1], name)| + if WaitsFor(db, lines[|lines| - 1], name) then 1 else 0
  {
    var init, last := WaitingFor(db, lines[..|lines| - 1], name), |lines| - 1;
    assert WaitingFor(db, lines, name) == if WaitsFor(db, lines[last], name) then init + {last} else init;
  }

  function One(name: string): int { 1 }

  lemma AppendRow(rows: seq<(string, int)>, name: string, k: string)
    ensures SumAt(rows + [(name, 1)], k) == SumAt(rows, k) + if name == k then 1 else 0
    ensures HasKey(rows + [(name, 1)], k) <==> HasKey(rows, k) || name == k
    ensures Weighted(One, rows + [(name, 1)]) == Weighted(One, rows) + 1
  {
    var all := rows + [(name, 1)];
    assert all[..|all| - 1] == rows;
    HasKeyLast(all, k);
  }

  predicate Among(db: Db, lines: seq<LineItem>) {
    forall i :: 0 <= i < |lines| ==> lines[i] in db.lines
  }

  lemma AllButLast(db: Db, lines: seq<LineItem>)
    requires Among(db, lines) && lines != []
    ensures Among(db, lines[..|lines| - 1]) && lines[|lines| - 1] in db.lines
  {
  }

  lemma JoinStep(db: Db, lines: seq<LineItem>)
    requires PrimaryKeys(db) && lines != [] && lines[|lines| - 1] in db.lines
    ensures var init, l := JoinLines(db, lines[..|lines| - 1]), lines[|lines| - 1];
            JoinLines(db, lines) == if Waits(db, l) then init + [(NameOf(db.suppliers, l.suppkey), 1)] else init
  {
    LineJoinsOnce(db, lines[|lines| - 1]);
  }

  lemma {:induction false} JoinCounts(db: Db, lines: seq<LineItem>, name: string)
    requires PrimaryKeys(db) && Among(db, lines)
    ensures SumAt(JoinLines(db, lines), name) == |WaitingFor(db, lines, name)|
    ensures HasKey(JoinLines(db, lines), name) <==> |WaitingFor(db, lines, name)| > 0
    ensures Weighted(One, JoinLines(db, lines)) == |Waiting(db, lines)|
  {
    if lines != [] {
      AllButLast(db, lines);
      JoinCounts(db, lines[..|lines| - 1], name);
      JoinStep(db, lines);
      LastWaiting(db, lines);
      LastWaitingFor(db, lines, name);
      AppendRow(JoinLines(db, lines[..|lines| - 1]), NameOf(db.suppliers, lines[|lines| - 1].suppkey), name);
    } else {
      assert Waiting(db, lines) == {} && WaitingFor(db, lines, name) == {};
    }
  }

  /** Before the limit, numwait sums to the number of waiting lines. */
  lemma NumwaitConserved(db: Db)
    requires PrimaryKeys(db)
    ensures Weighted(One, Unlimited(db)) == |Waiting(db, db.lines)|
  {
    JoinCounts(db, db.lines, "");
    GroupingConserves(One, JoinLines(db, db.lines));
    OrderByConserves(One, Before, GroupSum(JoinLines(db, db.lines)));
  }

  /** Before the limit there is a row for a name exactly when some line waits for a supplier of
      that name, and numwait is the number of such lines. */
  lemma RowIff(db: Db, name: string, numwait: int)
    requires PrimaryKeys(db)
    ensures (name, numwait) in Unlimited(db) <==> numwait > 0 && numwait == |WaitingFor(db, db.lines, name)|
  {
    var rows := JoinLines(db, db.lines);
    OrderByKeepsRows(Before, GroupSum(rows), (name, numwait));
    GroupIff(rows, name, numwait);
    JoinCounts(db, db.lines, name);
  }

  /** No order contributes to two suppliers. */
  lemma OneSupplierPerOrder(db: Db, a: LineItem, b: LineItem)
    requires a in db.lines && b in db.lines && Waits(db, a) && Waits(db, b) && a.orderkey == b.orderkey
    ensures a.suppkey == b.suppkey
  {
    var late := LateSuppliersOf(db.lines, a.orderkey);
    var i :| 0 <= i < |db.lines| && db.lines[i] == a;
    var j :| 0 <= j < |db.lines| && db.lines[j] == b;
    assert a.suppkey in late && b.suppkey in late;
    SingletonIff(late, a.suppkey);
  }

  // ---------- Order and limit ----------

  lemma BeforeIsTotal()
    ensures TotalOrder(Before)
  {
    forall a: (string, int), b: (string, int)
      ensures Before(a, b) || Before(b, a)
    {
      StringTotal(a.0, b.0);
    }
    forall a: (string, int), b: (string, int), c: (string, int) | Before(a, b) && Before(b, c)
      ensures Before(a, c)
    {
      if a.1 == b.1 == c.1 {
        StringTransitive(a.0, b.0, c.0);
      }
    }
    forall a: (string, int), b: (string, int) | Before(a, b) && Before(b, a)
      ensures a == b
    {
      StringAntisymmetric(a.0, b.0);
    }
  }

  // More waiting lines, or as many and the earlier name
  ghost predicate Ahead(name1: string, numwait1: int, name2: string, numwait2: int) {
    numwait1 > numwait2 || (numwait1 == numwait2 && name1 != name2 && ComesFirst(name1, name2))
  }

  /** Before the limit the rows come by falling numwait, and by name where numwait is the same;
      no name has two rows. */
  lemma RowsAreOrdered(db: Db, i: nat, j: nat)
    requires i < j < |Unlimited(db)|
    ensures Ahead(Unlimited(db)[i].0, Unlimited(db)[i].1, Unlimited(db)[j].0, Unlimited(db)[j].1)
    ensures Unlimited(db)[i].0 != Unlimited(db)[j].0
  {
    var groups, all := GroupSum(JoinLines(db, db.lines)), Unlimited(db);
    BeforeIsTotal();
    OrderByIsSorted(Before, groups);
    GroupsOnce(JoinLines(db, db.lines));
    OrderByKeepsOnce(Before, groups);
    assert Before(all[i], all[j]);
    StringLeIff(all[i].0, all[j].0);
  }

  /** The result is the first hundred rows: whatever is left out has no more waiting lines than
      anything kept, and as many only with a later name. */
  lemma LimitKeepsTheTop(db: Db, kept: int, dropped: int)
    requires 0 <= kept < |Result(db)| <= dropped < |Unlimited(db)|
    ensures |Result(db)| == 100
    ensures Ahead(Result(db)[kept].0, Result(db)[kept].1, Unlimited(db)[dropped].0, Unlimited(db)[dropped].1)
  {
    RowsAreOrdered(db, kept, dropped);
  }

  /** The result is all rows when there are at most a hundred. */
  lemma ResultIsPrefix(db: Db)
    ensures Result(db) <= Unlimited(db)
    ensures |Result(db)| == if |Unlimited(db)| < 100 then |Unlimited(db)| else 100
  {
  }
}
