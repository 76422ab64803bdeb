/** TPC-H query 13: how many customers have how many orders. */
module Query13 {
  import opened Relational
  import opened LikePattern

  // The columns that the query reads
  datatype Customer = Customer(custkey: int)
  datatype Order = Order(orderkey: int, custkey: int, comment: string)

  predicate IsCustomer(customers: seq<Customer>, custkey: int) {
    exists i :: 0 <= i < |customers| && customers[i].custkey == custkey
  }

  // PRIMARY KEY (c_custkey)
  predicate CustomerKey(customers: seq<Customer>) {
    forall i, j :: 0 <= i < j < |customers| ==> customers[i].custkey != customers[j].custkey
  }

  // FOREIGN KEY (o_custkey)
  predicate OrderCustomer(customers: seq<Customer>, orders: seq<Order>) {
    forall i :: 0 <= i < |orders| ==> IsCustomer(customers, orders[i].custkey)
  }

  // ---------- The query ----------

  // o_comment NOT LIKE '%special%requests%'
  predicate Passes(o: Order) {
    !Like(o.comment, "%special%requests%")
  }

  function Matches(custkey: int, orders: seq<Order>): seq<Order> {
    if orders == [] then []
    else
      var init, o := Matches(custkey, orders[..|orders| - 1]), orders[|orders| - 1];
      if o.custkey == custkey && Passes(o) then init + [o] else init
  }

  // A customer without a match is joined with NULL.
  function JoinedRows(c: Customer, orders: seq<Order>): (rows: seq<(int, Option<int>)>)
    ensures |rows| >= 1 && forall i :: 0 <= i < |rows| ==> rows[i].0 == c.custkey
  {
    var m := Matches(c.custkey, orders);
    if m == [] then [(c.custkey, None)] else seq(|m|, i requires 0 <= i < |m| => (c.custkey, Some(m[i].orderkey)))
  }

  function LeftJoin(customers: seq<Customer>, orders: seq<Order>): seq<(int, Option<int>)> {
    if customers == [] then []
    else LeftJoin(customers[..|customers| - 1], orders) + JoinedRows(customers[|customers| - 1], orders)
  }

  // count(o_orderkey) counts the rows whose o_orderkey is not NULL.
  function NotNull(rows: seq<(int, Option<int>)>): (r: seq<(int, int)>)
    ensures |r| == |rows| && forall i :: 0 <= i < |rows| ==> r[i] == (rows[i].0, if rows[i].1.Some? then 1 else 0)
  {
    seq(|rows|, i requires 0 <= i < |rows| => (rows[i].0, if rows[i].1.Some? then 1 else 0))
  }

  // c_orders (c_custkey, c_count)
  function COrders(customers: seq<Customer>, orders: seq<Order>): seq<(int, int)> {
    GroupSum(NotNull(LeftJoin(customers, orders)))
  }

  // One row (c_count, 1) for each row of c_orders, for count(*)
  function Counted(rows: seq<(int, int)>): (r: seq<(int, int)>)
    ensures |r| == |rows| && forall i :: 0 <= i < |rows| ==> r[i] == (rows[i].1, 1)
  {
    seq(|rows|, i requires 0 <= i < |rows| => (rows[i].1, 1))
  }

  // ORDER BY custdist DESC, c_count DESC
  predicate Before(a: (int, int), b: (int, int)) {
    a.1 > b.1 || (a.1 == b.1 && a.0 >= b.0)
  }

  // Rows (c_count, custdist)
  function Result(customers: seq<Customer>, orders: seq<Order>): seq<(int, int)> {
    OrderBy(Before, GroupSum(Counted(COrders(customers, orders))))
  }

  // ---------- The filter ----------

  /** An order is left out exactly when its comment says special and, after it, requests. */
  lemma PassesIff(o: Order)
    ensures Passes(o) <==> !InOrder(o.comment, "special", "requests")
  {
    LikeTwoWords(o.comment, "special", "requests");
    assert "%special%requests%" == "%" + ("special" + ("%" + ("requests" + "%")));
  }

  // ---------- The inner grouping ----------

  // The orders of a customer that pass the filter, by position
  function OrdersOf(orders: seq<Order>, custkey: int): set<int> {
    set i | 0 <= i < |orders| && orders[i].custkey == custkey && Passes(orders[i])
  }

  lemma LastOrderOf(orders: seq<Order>, custkey: int)
    requires orders != []
    ensures |OrdersOf(orders, custkey)| == |OrdersOf(orders[..|orders| - 1], custkey)|
                                           + if orders[|orders| - 1].custkey == custkey && Passes(orders[|orders| - 1]) then 1 else 0
  {
    var init, last := OrdersOf(orders[..|orders| - 1], custkey), |orders| - 1;
    assert OrdersOf(orders, custkey) == if orders[last].custkey == custkey && Passes(orders[last]) then init + {last} else init;
  }

  lemma {:induction false} MatchesAreOrders(orders: seq<Order>, custkey: int)
    ensures |Matches(custkey, orders)| == |OrdersOf(orders, custkey)|
  {
    if orders != [] {
      MatchesAreOrders(orders[..|orders| - 1], custkey);
      LastOrderOf(orders, custkey);
    }
  }

  // What the inner query should return: each customer once, with the number of its orders
  function PerCustomer(customers: seq<Customer>, orders: seq<Order>): (r: seq<(int, int)>)
    ensures |r| == |customers|
    ensures forall i :: 0 <= i < |customers| ==> r[i] == (customers[i].custkey, |Matches(customers[i].custkey, orders)|)
  {
    seq(|customers|, i requires 0 <= i < |customers| => (customers[i].custkey, |Matches(customers[i].custkey, orders)|))
  }

  lemma {:induction false} SumOfOnes(rows: seq<(int, int)>, k: int)
    requires forall i :: 0 <= i < |rows| ==> rows[i] == (k, 1)
    ensures SumAt(rows, k) == |rows|
  {
    if rows != [] {
      SumOfOnes(rows[..|rows| - 1], k);
    }
  }

  lemma {:induction false} SumElsewhere(rows: seq<(int, int)>, k: int)
    requires forall i :: 0 <= i < |rows| ==> rows[i].0 != k
    ensures SumAt(rows, k) == 0
  {
    if rows != [] {
      SumElsewhere(rows[..|rows| - 1], k);
    }
  }

  lemma BlockSum(c: Customer, orders: seq<Order>, k: int)
    ensures SumAt(NotNull(JoinedRows(c, orders)), k) == if k == c.custkey then |Matches(c.custkey, orders)| else 0
  {
    var block := NotNull(JoinedRows(c, orders));
    if k != c.custkey {
      SumElsewhere(block, k);
    } else if Matches(c.custkey, orders) == [] {
      assert block == [(k, 0)];
    } else {
      SumOfOnes(block, k);
    }
  }

  function CustKeys(customers: seq<Customer>): (r: seq<int>)
    ensures |r| == |customers| && forall i :: 0 <= i < |customers| ==> r[i] == customers[i].custkey
  {
    seq(|customers|, i requires 0 <= i < |customers| => customers[i].custkey)
  }

  lemma NotNullOfJoin(customers: seq<Customer>, orders: seq<Order>)
    requires customers != []
    ensures NotNull(LeftJoin(customers, orders))
         == NotNull(LeftJoin(customers[..|customers| - 1], orders)) + NotNull(JoinedRows(customers[|customers| - 1], orders))
  {
  }

  lemma LastKey(customers: seq<Customer>)
    requires CustomerKey(customers) && customers != []
    ensures CustomerKey(customers[..|customers| - 1])
    ensures CustKeys(customers) == CustKeys(customers[..|customers| - 1]) + [customers[|customers| - 1].custkey]
    ensures customers[|customers| - 1].custkey !in CustKeys(customers[..|customers| - 1])
  {
  }

  lemma {:induction false} JoinKeys(customers: seq<Customer>, orders: seq<Order>)
    requires CustomerKey(customers)
    ensures Keys(NotNull(LeftJoin(customers, orders))) == CustKeys(customers)
  {
    if customers != [] {
      var init, c := customers[..|customers| - 1], customers[|customers| - 1];
      LastKey(customers);
      JoinKeys(init, orders);
      NotNullOfJoin(customers, orders);
      KeysOfBlock(NotNull(LeftJoin(init, orders)), NotNull(JoinedRows(c, orders)), c.custkey);
    }
  }

  lemma {:induction false} JoinSum(customers: seq<Customer>, orders: seq<Order>, k: int)
    requires CustomerKey(customers)
    ensures SumAt(NotNull(LeftJoin(customers, orders)), k) == if IsCustomer(customers, k) then |Matches(k, orders)| else 0
  {
    if customers != [] {
      var init, c := customers[..|customers| - 1], customers[|customers| - 1];
      JoinSum(init, orders, k);
      var a, b := NotNull(LeftJoin(init, orders)), NotNull(JoinedRows(c, orders));
      NotNullOfJoin(customers, orders);
      SumAtConcat(a, b, k);
      BlockSum(c, orders, k);
      LastCustomer(customers, k);
    }
  }

  lemma LastCustomer(customers: seq<Customer>, k: int)
    requires customers != []
    ensures IsCustomer(customers, k) <==> IsCustomer(customers[..|customers| - 1], k) || customers[|customers| - 1].custkey == k
    ensures CustomerKey(customers) ==> !(IsCustomer(customers[..|customers| - 1], k) && customers[|customers| - 1].custkey == k)
  {
    var init := customers[..|customers| - 1];
    if i :| 0 <= i < |init| && init[i].custkey == k {
      assert customers[i].custkey == k;
    }
    if i :| 0 <= i < |customers| && customers[i].custkey == k {
      assert i < |init| ==> init[i].custkey == k;
    }
  }

  /** Joining, grouping and counting give each customer one row with the number of its orders. */
  lemma OneRowPerCustomer(customers: seq<Customer>, orders: seq<Order>)
    requires CustomerKey(customers)
    ensures COrders(customers, orders) == PerCustomer(customers, orders)
    ensures |COrders(customers, orders)| == |customers|
    ensures forall i :: 0 <= i < |customers| ==>
                          COrders(customers, orders)[i] == (customers[i].custkey, |OrdersOf(orders, customers[i].custkey)|)
  {
    JoinKeys(customers, orders);
    forall i | 0 <= i < |customers|
      ensures |Matches(customers[i].custkey, orders)| == |OrdersOf(orders, customers[i].custkey)|
    {
      MatchesAreOrders(orders, customers[i].custkey);
    }
    forall i | 0 <= i < |customers|
      ensures SumAt(NotNull(LeftJoin(customers, orders)), customers[i].custkey) == |Matches(customers[i].custkey, orders)|
    {
      JoinSum(customers, orders, customers[i].custkey);
    }
  }

  // ---------- The result ----------

  // The customers with k orders, by position
  function CustomersWith(customers: seq<Customer>, orders: seq<Order>, k: int): set<int> {
    set i | 0 <= i < |customers| && |OrdersOf(orders, customers[i].custkey)| == k
  }

  lemma LastCustomerWith(customers: seq<Customer>, orders: seq<Order>, k: int)
    requires customers != []
    ensures var init, c := customers[..|customers| - 1], customers[|customers| - 1];
            |CustomersWith(customers, orders, k)| == |CustomersWith(init, orders, k)| + if |OrdersOf(orders, c.custkey)| == k then 1 else 0
  {
    var init, c := customers[..|customers| - 1], customers[|customers| - 1];
    assert CustomersWith(customers, orders, k)
        == if |OrdersOf(orders, c.custkey)| == k then CustomersWith(init, orders, k) + {|customers| - 1} else CustomersWith(init, orders, k);
  }

  lemma {:induction false} CountedSum(customers: seq<Customer>, orders: seq<Order>, k: int)
    ensures SumAt(Counted(PerCustomer(customers, orders)), k) == |CustomersWith(customers, orders, k)|
    ensures HasKey(Counted(PerCustomer(customers, orders)), k) <==> |CustomersWith(customers, orders, k)| > 0
  {
    var rows := Counted(PerCustomer(customers, orders));
    if customers != [] {
      CountedSum(customers[..|customers| - 1], orders, k);
      LastCustomerWith(customers, orders, k);
      MatchesAreOrders(orders, customers[|customers| - 1].custkey);
      assert rows[..|rows| - 1] == Counted(PerCustomer(customers[..|customers| - 1], orders));
      HasKeyLast(rows, k);
    } else {
      assert CustomersWith(customers, orders, k) == {};
    }
  }

  lemma BeforeIsTotal()
    ensures TotalOrder(Before)
  {
  }

  /** The result has a row (k, d) exactly when d customers, and at least one, have k orders;
      customers without orders are those of k = 0. */
  lemma RowIff(customers: seq<Customer>, orders: seq<Order>, k: int, d: int)
    requires CustomerKey(customers)
    ensures (k, d) in Result(customers, orders) <==> d == |CustomersWith(customers, orders, k)| && d > 0
  {
    var rows := Counted(COrders(customers, orders));
    OrderByKeepsRows(Before, GroupSum(rows), (k, d));
    GroupIff(rows, k, d);
    OneRowPerCustomer(customers, orders);
    CountedSum(customers, orders, k);
  }

  /** No c_count has two rows. */
  lemma OneRowPerCount(customers: seq<Customer>, orders: seq<Order>)
    ensures KeysOnce(Result(customers, orders))
  {
    GroupsOnce(Counted(COrders(customers, orders)));
    OrderByKeepsOnce(Before, GroupSum(Counted(COrders(customers, orders))));
  }

  /** The rows come by falling custdist, and by falling c_count where custdist is the same. */
  lemma ResultIsOrdered(customers: seq<Customer>, orders: seq<Order>, i: nat, j: nat)
    requires i < j < |Result(customers, orders)|
    ensures var (count1, dist1) := Result(customers, orders)[i]; var (count2, dist2) := Result(customers, orders)[j];
            dist1 > dist2 || (dist1 == dist2 && count1 > count2)
  {
    BeforeIsTotal();
    OrderByIsSorted(Before, GroupSum(Counted(COrders(customers, orders))));
    OneRowPerCount(customers, orders);
    assert Before(Result(customers, orders)[i], Result(customers, orders)[j]);
  }

  // ---------- Conservation ----------

  function One(k: int): int { 1 }

  function Itself(k: int): int { k }

  lemma {:induction false} CountedOnes(rows: seq<(int, int)>)
    ensures Weighted(One, Counted(rows)) == |rows|
  {
    if rows != [] {
      CountedOnes(rows[..|rows| - 1]);
      assert Counted(rows)[..|rows| - 1] == Counted(rows[..|rows| - 1]);
    }
  }

  lemma ResultConserves(w: int -> int, customers: seq<Customer>, orders: seq<Order>)
    requires CustomerKey(customers)
    ensures Weighted(w, Result(customers, orders)) == Weighted(w, Counted(PerCustomer(customers, orders)))
  {
    OneRowPerCustomer(customers, orders);
    OrderByConserves(w, Before, GroupSum(Counted(COrders(customers, orders))));
    GroupingConserves(w, Counted(COrders(customers, orders)));
  }

  /** custdist sums to the number of customers. */
  lemma CustomersConserved(customers: seq<Customer>, orders: seq<Order>)
    requires CustomerKey(customers)
    ensures Weighted(One, Result(customers, orders)) == |customers|
  {
    ResultConserves(One, customers, orders);
    CountedOnes(PerCustomer(customers, orders));
  }

  // The orders that pass the filter, by position
  function Passing(orders: seq<Order>): set<int> {
    set i | 0 <= i < |orders| && Passes(orders[i])
  }

  lemma LastPassing(orders: seq<Order>)
    requires orders != []
    ensures |Passing(orders)| == |Passing(orders[..|orders| - 1])| + if Passes(orders[|orders| - 1]) then 1 else 0
  {
    var init, last := Passing(orders[..|orders| - 1]), |orders| - 1;
    assert Passing(orders) == if Passes(orders[last]) then init + {last} else init;
  }

  function MatchTotal(customers: seq<Customer>, orders: seq<Order>): nat {
    if customers == [] then 0
    else MatchTotal(customers[..|customers| - 1], orders) + |Matches(customers[|customers| - 1].custkey, orders)|
  }

  lemma {:induction false} CountedMatches(customers: seq<Customer>, orders: seq<Order>)
    ensures Weighted(Itself, Counted(PerCustomer(customers, orders))) == MatchTotal(customers, orders)
  {
    var rows := Counted(PerCustomer(customers, orders));
    if customers != [] {
      CountedMatches(customers[..|customers| - 1], orders);
      assert rows[..|rows| - 1] == Counted(PerCustomer(customers[..|customers| - 1], orders));
    }
  }

  lemma {:induction false} OneMoreOrder(customers: seq<Customer>, orders: seq<Order>)
    requires CustomerKey(customers) && orders != []
    ensures MatchTotal(customers, orders) == MatchTotal(customers, orders[..|orders| - 1])
                                             + if Passes(orders[|orders| - 1]) && IsCustomer(customers,
                                                 orders[|orders| - 1].custkey) then 1 else 0
  {
    if customers != [] {
      OneMoreOrder(customers[..|customers| - 1], orders);
      LastCustomer(customers, orders[|orders| - 1].custkey);
    }
  }

  lemma {:induction false} NoOrders(customers: seq<Customer>)
    ensures MatchTotal(customers, []) == 0
  {
    if customers != [] {
      NoOrders(customers[..|customers| - 1]);
    }
  }

  lemma {:induction false} MatchTotalIsPassing(customers: seq<Customer>, orders: seq<Order>)
    requires CustomerKey(customers) && OrderCustomer(customers, orders)
    ensures MatchTotal(customers, orders) == |Passing(orders)|
  {
    if orders == [] {
      NoOrders(customers);
      assert Passing(orders) == {};
    } else {
      LastPassing(orders);
      MatchTotalIsPassing(customers, orders[..|orders| - 1]);
      OneMoreOrder(customers, orders);
    }
  }

  /** c_count * custdist sums to the number of orders that pass the filter. */
  lemma OrdersConserved(customers: seq<Customer>, orders: seq<Order>)
    requires CustomerKey(customers) && OrderCustomer(customers, orders)
    ensures Weighted(Itself, Result(customers, orders)) == |Passing(orders)|
  {
    ResultConserves(Itself, customers, orders);
    CountedMatches(customers, orders);
    MatchTotalIsPassing(customers, orders);
  }
}
