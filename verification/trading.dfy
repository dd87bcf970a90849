/**
 * A stock trading service with market and limit orders
 * (q20_stock_trading, TradingService.java).
 *
 * A market order fills at once at the current price or is rejected. A limit
 * order is validated against the current price, fills at once when that
 * price is already favourable, and otherwise stays OPEN until a price update
 * makes it favourable and the user can still afford it (a buy) or still holds
 * the shares (a sell).
 */
module Trading {
  import opened Common
  import opened Strings
  import opened Ordering

  datatype Kind = Market | Limit
  datatype Action = Buy | Sell
  datatype Status = Filled | Open | Rejected

  datatype Order = Order(stock: string, action: Action, qty: int, kind: Kind, status: Status, limit: int)

  /**
   * A user: cash, the current positive holdings, the stocks in the order they
   * were first ever bought, and every order placed.
   */
  datatype User = User(cash: int, holdings: map<string, int>, firstAcquired: seq<string>, orders: seq<Order>)

  /** An OPEN limit order, named by its owner and its position in the owner's order list. */
  datatype Ref = Ref(user: string, index: int)

  /**
   * The service: stock names in first-added order with their latest prices,
   * the users, and for each stock the OPEN limit orders waiting on its price.
   */
  datatype Service = Service(names: seq<string>, prices: map<string, int>, users: map<string, User>, open: map<string, seq<Ref>>)

  function StatusName(st: Status): string {
    match st
    case Filled => "FILLED"
    case Open => "OPEN"
    case Rejected => "REJECTED"
  }

  function Empty(): (s: Service)
    ensures s.names == [] && s.users == map[] && s.open == map[]
  {
    Service([], map[], map[], map[])
  }

  // ---------------------------------------------------------------------------
  // Users and accounts
  // ---------------------------------------------------------------------------

  /** `addUser`: a new user with the opening cash; an existing user is left alone. */
  function AddUser(s: Service, id: string, cash: int): (r: Service)
    ensures id in s.users ==> r == s
    ensures id !in s.users ==> r == s.(users := s.users[id := User(cash, map[], [], [])])
  {
    if id in s.users then s else s.(users := s.users[id := User(cash, map[], [], [])])
  }

  /** `getAccountBalance`: the user's cash, or 0 for an unknown user. */
  function Balance(s: Service, id: string): (c: int)
    ensures id !in s.users ==> c == 0
    ensures id in s.users ==> c == s.users[id].cash
  {
    if id in s.users then s.users[id].cash else 0
  }

  /** `getHoldingQty`: shares of a stock the user holds, 0 when none. */
  function Held(u: User, stock: string): int {
    if stock in u.holdings then u.holdings[stock] else 0
  }

  // ---------------------------------------------------------------------------
  // Fills
  // ---------------------------------------------------------------------------

  /** `applyBuy`: pay qty·price, gain qty shares, and note the stock the first time it is ever bought. */
  function ApplyBuy(u: User, stock: string, qty: int, price: int): (r: User)
    ensures r.orders == u.orders
    ensures r.cash == u.cash - qty * price
    ensures Held(r, stock) == Held(u, stock) + qty
    ensures forall k :: k != stock ==> Held(r, k) == Held(u, k)
    ensures r.firstAcquired == if stock in u.firstAcquired then u.firstAcquired else u.firstAcquired + [stock]
  {
    var fa := if stock in u.firstAcquired then u.firstAcquired else u.firstAcquired + [stock];
    u.(cash := u.cash - qty * price, holdings := u.holdings[stock := Held(u, stock) + qty], firstAcquired := fa)
  }

  /**
   * `applySell`: receive qty·price; then, when the user holds at least qty
   * shares, give them up, dropping a holding that reaches zero. The first
   * acquisition order is never touched.
   */
  function ApplySell(u: User, stock: string, qty: int, price: int): (r: User)
    ensures r.orders == u.orders && r.firstAcquired == u.firstAcquired
    ensures r.cash == u.cash + qty * price
    ensures Held(u, stock) >= qty && stock in u.holdings ==> Held(r, stock) == Held(u, stock) - qty
    ensures !(Held(u, stock) >= qty && stock in u.holdings) ==> r.holdings == u.holdings
    ensures forall k :: k != stock ==> Held(r, k) == Held(u, k)
    ensures stock in u.holdings && u.holdings[stock] == qty ==> stock !in r.holdings
  {
    var paid := u.(cash := u.cash + qty * price);
    if stock !in u.holdings || u.holdings[stock] < qty then paid
    else
      var left := u.holdings[stock] - qty;
      if left == 0 then paid.(holdings := u.holdings - {stock})
      else paid.(holdings := u.holdings[stock := left])
  }

  /** The user's cash plus their shares of `stock` valued at `price`. */
  function Worth(u: User, stock: string, price: int): int {
    u.cash + Held(u, stock) * price
  }

  /** A fill is a trade at the fill price: the user's cash-plus-shares worth at that price is unchanged. */
  lemma FillConservesWorth(u: User, stock: string, qty: int, price: int)
    ensures Worth(ApplyBuy(u, stock, qty, price), stock, price) == Worth(u, stock, price)
    ensures Held(u, stock) >= qty > 0 ==> Worth(ApplySell(u, stock, qty, price), stock, price) == Worth(u, stock, price)
  {
  }

  // ---------------------------------------------------------------------------
  // Submitting orders
  // ---------------------------------------------------------------------------

  /** `handleMarket`: a buy fills when the cash covers qty·price, a sell when the user holds qty shares. */
  function HandleMarket(u: User, stock: string, act: Action, qty: int, price: int): (r: (User, Status))
    ensures r.1 != Open
    ensures r.1 == Filled <==> if act == Buy then u.cash >= qty * price else Held(u, stock) >= qty
    ensures r.1 == Filled && act == Buy ==> r.0.(orders := u.orders) == ApplyBuy(u, stock, qty, price)
    ensures r.1 == Filled && act == Sell ==> r.0.(orders := u.orders) == ApplySell(u, stock, qty, price)
    ensures r.1 == Rejected ==> r.0.(orders := u.orders) == u
    ensures r.0.orders == u.orders + [Order(stock, act, qty, Market, r.1, 0)]
  {
    var (v, st) :=
      if act == Buy then
        if u.cash >= qty * price then (ApplyBuy(u, stock, qty, price), Filled) else (u, Rejected)
      else
        if Held(u, stock) >= qty then (ApplySell(u, stock, qty, price), Filled) else (u, Rejected);
    (v.(orders := v.orders + [Order(stock, act, qty, Market, st, 0)]), st)
  }

  /** The price is good enough for a limit order: at or below the limit for a buy, at or above it for a sell. */
  predicate Favorable(act: Action, price: int, limit: int) {
    if act == Buy then price <= limit else price >= limit
  }

  /** The user can take the order now: the cash for a buy, the shares for a sell. */
  predicate CanCover(u: User, stock: string, act: Action, qty: int, price: int) {
    if act == Buy then u.cash >= qty * price else Held(u, stock) >= qty
  }

  /** Fill an order for the user now. */
  function Apply(u: User, stock: string, act: Action, qty: int, price: int): User {
    if act == Buy then ApplyBuy(u, stock, qty, price) else ApplySell(u, stock, qty, price)
  }

  /**
   * `handleLimit`: rejected unless the user could cover the order at the
   * CURRENT price; filled at that price when it is already favourable;
   * otherwise OPEN.
   */
  function HandleLimit(u: User, stock: string, act: Action, qty: int, limit: int, price: int): (r: (User, Status))
    ensures r.1 == Rejected <==> !CanCover(u, stock, act, qty, price)
    ensures r.1 == Filled <==> CanCover(u, stock, act, qty, price) && Favorable(act, price, limit)
    ensures r.1 == Open <==> CanCover(u, stock, act, qty, price) && !Favorable(act, price, limit)
    ensures r.1 == Filled ==> r.0.(orders := u.orders) == Apply(u, stock, act, qty, price)
    ensures r.1 != Filled ==> r.0.(orders := u.orders) == u
    ensures r.0.orders == u.orders + [Order(stock, act, qty, Limit, r.1, limit)]
  {
    var (v, st) :=
      if act == Buy then
        if u.cash < qty * price then (u, Rejected)
        else if price <= limit then (ApplyBuy(u, stock, qty, price), Filled)
        else (u, Open)
      else
        if Held(u, stock) < qty then (u, Rejected)
        else if price >= limit then (ApplySell(u, stock, qty, price), Filled)
        else (u, Open);
    (v.(orders := v.orders + [Order(stock, act, qty, Limit, st, limit)]), st)
  }

  /** Add a reference to the list of OPEN orders waiting on a stock. */
  function Track(open: map<string, seq<Ref>>, stock: string, ref: Ref): (r: map<string, seq<Ref>>)
    ensures r.Keys == open.Keys + {stock}
    ensures r[stock] == (if stock in open then open[stock] else []) + [ref]
    ensures forall k :: k in open && k != stock ==> r[k] == open[k]
  {
    open[stock := (if stock in open then open[stock] else []) + [ref]]
  }

  /**
   * `submitOrder`: an unknown user is rejected with nothing recorded; an
   * unknown stock or a non-positive quantity records a REJECTED order (with
   * the limit as given); otherwise the market or limit handler decides, and
   * an OPEN limit order is queued on its stock.
   */
  function Submit(s: Service, id: string, stock: string, kind: Kind, act: Action, qty: int, limit: int): (r: (Service, Status))
    ensures id !in s.users ==> r == (s, Rejected)
    ensures id in s.users && (stock !in s.prices || qty <= 0) ==>
              r == (s.(users := s.users[id := s.users[id].(orders := s.users[id].orders + [Order(stock, act, qty, kind, Rejected, limit)])]), Rejected)
    ensures r.0.names == s.names && r.0.prices == s.prices && r.0.users.Keys == s.users.Keys
    ensures forall k :: k in s.users && k != id ==> r.0.users[k] == s.users[k]
    ensures r.1 == Open <==> (r.0.open != s.open)
    ensures id in s.users && stock in s.prices && qty > 0 && kind == Market ==>
              var m := HandleMarket(s.users[id], stock, act, qty, s.prices[stock]);
              r == (s.(users := s.users[id := m.0]), m.1)
    ensures id in s.users && stock in s.prices && qty > 0 && kind == Limit ==>
              var l := HandleLimit(s.users[id], stock, act, qty, limit, s.prices[stock]);
              && r.1 == l.1 && r.0.users == s.users[id := l.0]
              && r.0.open == if l.1 == Open then Track(s.open, stock, Ref(id, |s.users[id].orders|)) else s.open
  {
    if id !in s.users then (s, Rejected)
    else
      var u := s.users[id];
      if stock !in s.prices || qty <= 0 then
        (s.(users := s.users[id := u.(orders := u.orders + [Order(stock, act, qty, kind, Rejected, limit)])]), Rejected)
      else
        var price := s.prices[stock];
        if kind == Market then
          var (v, st) := HandleMarket(u, stock, act, qty, price);
          (s.(users := s.users[id := v]), st)
        else
          var (v, st) := HandleLimit(u, stock, act, qty, limit, price);
          var open := if st == Open then Track(s.open, stock, Ref(id, |u.orders|)) else s.open;
          assert st == Open ==> open[stock] != (if stock in s.open then s.open[stock] else []);
          (s.(users := s.users[id := v], open := open), st)
  }

  // ---------------------------------------------------------------------------
  // Price updates
  // ---------------------------------------------------------------------------

  /**
   * One step of `autoFillOpenLimits`: a reference to something that is not
   * an OPEN limit order is dropped; an unfavourable order is kept; a
   * favourable one fills at the new price when the user can cover it, and is
   * kept OPEN otherwise. The result says whether the reference stays queued.
   */
  function Visit(users: map<string, User>, stock: string, price: int, ref: Ref): (r: (map<string, User>, bool))
    ensures r.0.Keys == users.Keys
    ensures forall k :: k in users && k != ref.user ==> r.0[k] == users[k]
  {
    if ref.user !in users || !(0 <= ref.index < |users[ref.user].orders|) then (users, false)
    else
      var u := users[ref.user];
      var o := u.orders[ref.index];
      if o.status != Open || o.kind != Limit then (users, false)
      else if !Favorable(o.action, price, o.limit) then (users, true)
      else if !CanCover(u, stock, o.action, o.qty, price) then (users, true)
      else
        var v := Apply(u, stock, o.action, o.qty, price);
        (users[ref.user := v.(orders := v.orders[ref.index := o.(status := Filled)])], false)
  }

  /** The whole pass over a stock's queue, front to back: the users afterwards and the references still queued. */
  function FillPass(users: map<string, User>, stock: string, price: int, refs: seq<Ref>): (r: (map<string, User>, seq<Ref>))
    ensures r.0.Keys == users.Keys
    ensures |r.1| <= |refs|
    ensures forall x :: x in r.1 ==> x in refs
    decreases |refs|
  {
    if refs == [] then (users, [])
    else
      var (u1, keep) := Visit(users, stock, price, refs[0]);
      var (u2, rest) := FillPass(u1, stock, price, refs[1..]);
      (u2, if keep then [refs[0]] + rest else rest)
  }

  /** `autoFillOpenLimits`: run the pass over the stock's queue; an emptied queue is removed. */
  function AutoFill(s: Service, stock: string, price: int): (r: Service)
    ensures r.names == s.names && r.prices == s.prices && r.users.Keys == s.users.Keys
    ensures r.open.Keys <= s.open.Keys
    ensures forall k :: k in s.open && k != stock ==> k in r.open && r.open[k] == s.open[k]
  {
    if stock !in s.open || s.open[stock] == [] then s
    else
      var (users, kept) := FillPass(s.users, stock, price, s.open[stock]);
      var open := if kept == [] then s.open - {stock} else s.open[stock := kept];
      s.(users := users, open := open)
  }

  /** `addStock`: a new stock joins the end of the listing, an existing one keeps its place; the price is set and the stock's OPEN orders are re-examined. */
  function AddStock(s: Service, stock: string, price: int): (r: Service)
    ensures r.prices == s.prices[stock := price]
    ensures r.names == if stock in s.prices then s.names else s.names + [stock]
    ensures r.users.Keys == s.users.Keys
  {
    var names := if stock in s.prices then s.names else s.names + [stock];
    AutoFill(s.(names := names, prices := s.prices[stock := price]), stock, price)
  }

  // ---------------------------------------------------------------------------
  // Views
  // ---------------------------------------------------------------------------

  /** `showStocks`: "name price" per stock, in first-added order. */
  function ShowStocks(s: Service): (r: seq<string>)
    requires forall k :: 0 <= k < |s.names| ==> s.names[k] in s.prices
    ensures |r| == |s.names|
    ensures forall i :: 0 <= i < |r| ==> r[i] == s.names[i] + " " + IntToString(s.prices[s.names[i]])
  {
    seq(|s.names|, i requires 0 <= i < |s.names| => s.names[i] + " " + IntToString(s.prices[s.names[i]]))
  }

  /** The stocks the user holds now, in first-ever acquisition order. */
  function HeldInOrder(u: User, order: seq<string>): (r: seq<string>)
    ensures forall x :: x in r <==> x in order && x in u.holdings && u.holdings[x] > 0
    ensures |r| <= |order|
  {
    if order == [] then []
    else
      var rest := HeldInOrder(u, order[1..]);
      var x := order[0];
      if x in u.holdings && u.holdings[x] > 0 then [x] + rest else rest
  }

  /** `viewStockHoldings`: "stock qty" for every positive holding, in first-ever acquisition order; nothing for an unknown user. */
  function ViewHoldings(s: Service, id: string): (r: seq<string>)
    ensures id !in s.users ==> r == []
    ensures id in s.users ==>
              var u := s.users[id];
              var held := HeldInOrder(u, u.firstAcquired);
              |r| == |held| && forall i :: 0 <= i < |r| ==> r[i] == held[i] + " " + IntToString(u.holdings[held[i]])
  {
    if id !in s.users then []
    else
      var u := s.users[id];
      var held := HeldInOrder(u, u.firstAcquired);
      seq(|held|, i requires 0 <= i < |held| => held[i] + " " + IntToString(Held(u, held[i])))
  }

  function ActionName(a: Action): string {
    if a == Buy then "BUY" else "SELL"
  }

  function KindName(k: Kind): string {
    if k == Market then "MARKET" else "LIMIT"
  }

  /** `viewOrders`: "stock action qty kind status" per order, in placement order; nothing for an unknown user. */
  function ViewOrders(s: Service, id: string): (r: seq<string>)
    ensures id !in s.users ==> r == []
    ensures id in s.users ==> |r| == |s.users[id].orders|
    ensures id in s.users ==> forall i :: 0 <= i < |r| ==>
              var o := s.users[id].orders[i];
              r[i] == o.stock + " " + ActionName(o.action) + " " + IntToString(o.qty) + " " + KindName(o.kind) + " " + StatusName(o.status)
  {
    if id !in s.users then []
    else
      var os := s.users[id].orders;
      seq(|os|, i requires 0 <= i < |os| =>
        os[i].stock + " " + ActionName(os[i].action) + " " + IntToString(os[i].qty) + " " + KindName(os[i].kind) + " " + StatusName(os[i].status))
  }

  // ---------------------------------------------------------------------------
  // The service invariant
  // ---------------------------------------------------------------------------

  /** Stock names listed once each, exactly the priced stocks. */
  ghost predicate StocksOk(s: Service) {
    Distinct(s.names) && forall k :: k in s.prices <==> k in s.names
  }

  /** Holdings are positive and were all acquired at some point; an OPEN order is a limit order for a positive quantity. */
  ghost predicate UserOk(u: User) {
    && (forall k :: k in u.holdings ==> u.holdings[k] > 0 && k in u.firstAcquired)
    && Distinct(u.firstAcquired)
    && (forall i :: 0 <= i < |u.orders| && u.orders[i].status == Open ==> u.orders[i].kind == Limit && u.orders[i].qty > 0)
  }

  /** `ref` names an OPEN order for `stock`. */
  ghost predicate Points(users: map<string, User>, ref: Ref, stock: string) {
    && ref.user in users
    && 0 <= ref.index < |users[ref.user].orders|
    && users[ref.user].orders[ref.index].status == Open
    && users[ref.user].orders[ref.index].stock == stock
  }

  /** A stock's queue is non-empty, names each order once, and names only OPEN orders for that stock. */
  ghost predicate QueueOk(users: map<string, User>, stock: string, refs: seq<Ref>) {
    refs != [] && Distinct(refs) && forall k :: 0 <= k < |refs| ==> Points(users, refs[k], stock)
  }

  /** Every OPEN order waits in its stock's queue. */
  ghost predicate Tracked(s: Service) {
    forall id, i :: id in s.users && 0 <= i < |s.users[id].orders| && s.users[id].orders[i].status == Open ==>
      s.users[id].orders[i].stock in s.open && Ref(id, i) in s.open[s.users[id].orders[i].stock]
  }

  ghost predicate Valid(s: Service) {
    && StocksOk(s)
    && (forall id :: id in s.users ==> UserOk(s.users[id]))
    && (forall st :: st in s.open ==> QueueOk(s.users, st, s.open[st]))
    && Tracked(s)
  }

  lemma EmptyValid()
    ensures Valid(Empty())
  {
  }

  lemma AddUserValid(s: Service, id: string, cash: int)
    requires Valid(s)
    ensures Valid(AddUser(s, id, cash))
  {
  }

  /** A fill of a positive quantity keeps a user well formed. */
  lemma ApplyOk(u: User, stock: string, act: Action, qty: int, price: int)
    requires UserOk(u) && qty > 0
    ensures UserOk(Apply(u, stock, act, qty, price))
  {
    var r := Apply(u, stock, act, qty, price);
    if act == Buy && stock !in u.firstAcquired {
      assert forall k :: k in u.firstAcquired ==> k in r.firstAcquired;
    }
  }

  /** Appending an order that is not OPEN, or an OPEN limit order for a positive quantity, keeps a user well formed. */
  lemma AppendOrderOk(u: User, o: Order)
    requires UserOk(u)
    requires o.status == Open ==> o.kind == Limit && o.qty > 0
    ensures UserOk(u.(orders := u.orders + [o]))
  {
  }

  /** Replacing one user by another with the same orders plus a new last one leaves every queue valid. */
  lemma QueuesAfterAppend(s: Service, id: string, v: User)
    requires id in s.users
    requires |v.orders| == |s.users[id].orders| + 1 && v.orders[..|s.users[id].orders|] == s.users[id].orders
    requires forall st :: st in s.open ==> QueueOk(s.users, st, s.open[st])
    ensures forall st :: st in s.open ==> QueueOk(s.users[id := v], st, s.open[st])
  {
    var users := s.users[id := v];
    forall st, k | st in s.open && 0 <= k < |s.open[st]|
      ensures Points(users, s.open[st][k], st)
    {
      var ref := s.open[st][k];
      assert Points(s.users, ref, st);
      if ref.user == id {
        assert v.orders[ref.index] == v.orders[..|s.users[id].orders|][ref.index];
      }
    }
  }

  /** A user's orders grew by one order that is not OPEN: the service stays valid. */
  lemma AppendClosedValid(s: Service, id: string, v: User)
    requires Valid(s) && id in s.users && UserOk(v)
    requires |v.orders| == |s.users[id].orders| + 1 && v.orders[..|s.users[id].orders|] == s.users[id].orders
    requires v.orders[|s.users[id].orders|].status != Open
    ensures Valid(s.(users := s.users[id := v]))
  {
    var n := |s.users[id].orders|;
    var t := s.(users := s.users[id := v]);
    QueuesAfterAppend(s, id, v);
    forall uid, i | uid in t.users && 0 <= i < |t.users[uid].orders| && t.users[uid].orders[i].status == Open
      ensures t.users[uid].orders[i].stock in t.open && Ref(uid, i) in t.open[t.users[uid].orders[i].stock]
    {
      if uid == id {
        assert v.orders[i] == v.orders[..n][i];
      }
    }
  }

  /** The new OPEN order's reference is not queued yet, so queueing it keeps every queue valid. */
  lemma AppendOpenQueues(s: Service, id: string, v: User)
    requires Valid(s) && id in s.users
    requires |v.orders| == |s.users[id].orders| + 1 && v.orders[..|s.users[id].orders|] == s.users[id].orders
    requires v.orders[|s.users[id].orders|].status == Open
    ensures var n := |s.users[id].orders|;
            var open := Track(s.open, v.orders[n].stock, Ref(id, n));
            forall st :: st in open ==> QueueOk(s.users[id := v], st, open[st])
  {
    var n := |s.users[id].orders|;
    var stock := v.orders[n].stock;
    var ref := Ref(id, n);
    QueuesAfterAppend(s, id, v);
    var q := if stock in s.open then s.open[stock] else [];
    assert forall k :: 0 <= k < |q| ==> q[k].user in s.users && q[k].index < |s.users[q[k].user].orders|;
    assert ref !in q;
    assert QueueOk(s.users[id := v], stock, q + [ref]);
  }

  /** Every OPEN order, the new one included, is queued after the append. */
  lemma AppendOpenTracked(s: Service, id: string, v: User)
    requires Tracked(s) && id in s.users
    requires |v.orders| == |s.users[id].orders| + 1 && v.orders[..|s.users[id].orders|] == s.users[id].orders
    requires v.orders[|s.users[id].orders|].status == Open
    ensures var n := |s.users[id].orders|;
            Tracked(s.(users := s.users[id := v], open := Track(s.open, v.orders[n].stock, Ref(id, n))))
  {
    var n := |s.users[id].orders|;
    var t := s.(users := s.users[id := v], open := Track(s.open, v.orders[n].stock, Ref(id, n)));
    forall uid, i | uid in t.users && 0 <= i < |t.users[uid].orders| && t.users[uid].orders[i].status == Open
      ensures t.users[uid].orders[i].stock in t.open && Ref(uid, i) in t.open[t.users[uid].orders[i].stock]
    {
      if uid == id && i < n {
        assert v.orders[i] == v.orders[..n][i];
      }
    }
  }

  /** A user's orders grew by one OPEN limit order, now queued on its stock: the service stays valid. */
  lemma AppendOpenValid(s: Service, id: string, v: User)
    requires Valid(s) && id in s.users && UserOk(v)
    requires |v.orders| == |s.users[id].orders| + 1 && v.orders[..|s.users[id].orders|] == s.users[id].orders
    requires v.orders[|s.users[id].orders|].status == Open
    ensures Valid(s.(users := s.users[id := v], open := Track(s.open, v.orders[|s.users[id].orders|].stock, Ref(id, |s.users[id].orders|))))
  {
    AppendOpenQueues(s, id, v);
    AppendOpenTracked(s, id, v);
  }

  /** Every order placement keeps the service valid. */
  lemma SubmitValid(s: Service, id: string, stock: string, kind: Kind, act: Action, qty: int, limit: int)
    requires Valid(s)
    ensures Valid(Submit(s, id, stock, kind, act, qty, limit).0)
  {
    if id in s.users {
      var u := s.users[id];
      var (t, st) := Submit(s, id, stock, kind, act, qty, limit);
      var v := t.users[id];
      var n := |u.orders|;
      var w := u;
      if stock in s.prices && qty > 0 {
        var price := s.prices[stock];
        ApplyOk(u, stock, act, qty, price);
        if kind == Market {
          w := if HandleMarket(u, stock, act, qty, price).1 == Filled then Apply(u, stock, act, qty, price) else u;
        } else {
          w := if HandleLimit(u, stock, act, qty, limit, price).1 == Filled then Apply(u, stock, act, qty, price) else u;
        }
      }
      assert v == w.(orders := u.orders + [v.orders[n]]);
      AppendOrderOk(w, v.orders[n]);
      assert v.orders[..n] == u.orders;
      if st == Open {
        AppendOpenValid(s, id, v);
      } else {
        AppendClosedValid(s, id, v);
      }
    }
  }

  // ---------------------------------------------------------------------------
  // The fill pass keeps the service valid
  // ---------------------------------------------------------------------------

  /** The order a reference names (a placeholder when it names none). */
  function OrderAt(users: map<string, User>, ref: Ref): Order {
    if ref.user in users && 0 <= ref.index < |users[ref.user].orders| then users[ref.user].orders[ref.index]
    else Order([], Buy, 0, Market, Rejected, 0)
  }

  /** Ready for a pass over `refs`: distinct references to OPEN orders for the stock, and well-formed users. */
  ghost predicate PassReady(users: map<string, User>, stock: string, refs: seq<Ref>) {
    && Distinct(refs)
    && (forall k :: 0 <= k < |refs| ==> Points(users, refs[k], stock))
    && (forall id :: id in users ==> UserOk(users[id]))
  }

  /**
   * What a pass over `refs` did: every order it dropped is now FILLED and was
   * favourable at the price, every other order is unchanged, the users stay
   * well formed, and the references still queued are distinct.
   */
  ghost predicate PassEffect(before: map<string, User>, after: map<string, User>, price: int, refs: seq<Ref>, kept: seq<Ref>) {
    && after.Keys == before.Keys
    && (forall id :: id in before ==> |after[id].orders| == |before[id].orders|)
    && (forall id, i :: id in before && 0 <= i < |before[id].orders| ==>
          after[id].orders[i] == if Ref(id, i) in refs && Ref(id, i) !in kept then before[id].orders[i].(status := Filled) else before[id].orders[i])
    && (forall k :: 0 <= k < |refs| && refs[k] !in kept ==> Favorable(OrderAt(before, refs[k]).action, price, OrderAt(before, refs[k]).limit))
    && (forall id :: id in after ==> UserOk(after[id]))
    && Distinct(kept)
    && (forall x :: x in kept ==> x in refs)
  }

  /** How one visit decides: the order fills, and leaves the queue, exactly when the price is favourable and the user can cover it. */
  lemma VisitDecides(users: map<string, User>, stock: string, price: int, ref: Ref)
    requires Points(users, ref, stock) && UserOk(users[ref.user])
    ensures var o := OrderAt(users, ref);
            var u := users[ref.user];
            var (after, keep) := Visit(users, stock, price, ref);
            && (!keep <==> Favorable(o.action, price, o.limit) && CanCover(u, stock, o.action, o.qty, price))
            && (keep ==> after == users)
            && (!keep ==> after[ref.user] == Apply(u, stock, o.action, o.qty, price).(orders := u.orders[ref.index := o.(status := Filled)]))
  {
  }

  /** A visit that keeps its reference queued changes nothing. */
  lemma KeepEffect(users: map<string, User>, price: int, ref: Ref)
    requires forall id :: id in users ==> UserOk(users[id])
    ensures PassEffect(users, users, price, [ref], [ref])
  {
  }

  /** A visit that fills its order marks exactly that order FILLED, and the new price favoured it. */
  lemma DropEffect(users: map<string, User>, price: int, ref: Ref, v: User)
    requires forall id :: id in users ==> UserOk(users[id])
    requires ref.user in users && 0 <= ref.index < |users[ref.user].orders| && UserOk(v)
    requires v.orders == users[ref.user].orders[ref.index := users[ref.user].orders[ref.index].(status := Filled)]
    requires Favorable(OrderAt(users, ref).action, price, OrderAt(users, ref).limit)
    ensures PassEffect(users, users[ref.user := v], price, [ref], [])
  {
    var after := users[ref.user := v];
    forall id, i | id in users && 0 <= i < |users[id].orders|
      ensures after[id].orders[i] == if Ref(id, i) in [ref] && Ref(id, i) !in [] then users[id].orders[i].(status := Filled) else users[id].orders[i]
    {
      assert Ref(id, i) in [ref] <==> Ref(id, i) == ref;
    }
    assert forall k :: 0 <= k < |[ref]| ==> [ref][k] == ref;
  }

  lemma VisitEffect(users: map<string, User>, stock: string, price: int, ref: Ref)
    requires PassReady(users, stock, [ref])
    ensures var (after, keep) := Visit(users, stock, price, ref);
            PassEffect(users, after, price, [ref], if keep then [ref] else [])
  {
    assert Points(users, [ref][0], stock);
    var u := users[ref.user];
    var o := u.orders[ref.index];
    VisitDecides(users, stock, price, ref);
    var (after, keep) := Visit(users, stock, price, ref);
    if keep {
      KeepEffect(users, price, ref);
    } else {
      ApplyOk(u, stock, o.action, o.qty, price);
      var v := Apply(u, stock, o.action, o.qty, price).(orders := u.orders[ref.index := o.(status := Filled)]);
      DropEffect(users, price, ref, v);
    }
  }

  /** Passes compose: a visit to the head followed by a pass over the tail. */
  lemma ComposeEffect(a: map<string, User>, b: map<string, User>, c: map<string, User>, price: int,
                      head: Ref, keep: bool, tail: seq<Ref>, rest: seq<Ref>)
    requires head !in tail
    requires PassEffect(a, b, price, [head], if keep then [head] else [])
    requires PassEffect(b, c, price, tail, rest)
    requires forall k :: 0 <= k < |tail| ==> OrderAt(b, tail[k]) == OrderAt(a, tail[k])
    ensures PassEffect(a, c, price, [head] + tail, if keep then [head] + rest else rest)
  {
    var refs := [head] + tail;
    var kept := if keep then [head] + rest else rest;
    forall id, i | id in a && 0 <= i < |a[id].orders|
      ensures c[id].orders[i] == if Ref(id, i) in refs && Ref(id, i) !in kept then a[id].orders[i].(status := Filled) else a[id].orders[i]
    {
      if Ref(id, i) == head {
        assert Ref(id, i) !in rest;
      } else {
        assert Ref(id, i) in refs <==> Ref(id, i) in tail;
        assert Ref(id, i) in kept <==> Ref(id, i) in rest;
      }
    }
    forall k | 0 <= k < |refs| && refs[k] !in kept
      ensures Favorable(OrderAt(a, refs[k]).action, price, OrderAt(a, refs[k]).limit)
    {
      if k > 0 {
        assert refs[k] == tail[k - 1];
      } else {
        assert refs[k] == [head][0];
      }
    }
  }

  /** The head of a ready queue is ready on its own. */
  lemma HeadReady(users: map<string, User>, stock: string, refs: seq<Ref>)
    requires PassReady(users, stock, refs) && refs != []
    ensures PassReady(users, stock, [refs[0]])
  {
    assert Points(users, refs[0], stock);
  }

  /** After visiting the head, the rest of the queue is still ready and still names the same orders. */
  lemma TailReady(users: map<string, User>, u1: map<string, User>, stock: string, price: int, refs: seq<Ref>, keep: bool)
    requires PassReady(users, stock, refs) && refs != []
    requires PassEffect(users, u1, price, [refs[0]], if keep then [refs[0]] else [])
    ensures PassReady(u1, stock, refs[1..])
    ensures forall k :: 0 <= k < |refs[1..]| ==> OrderAt(u1, refs[1..][k]) == OrderAt(users, refs[1..][k])
  {
    var tail := refs[1..];
    forall k | 0 <= k < |tail|
      ensures Points(u1, tail[k], stock) && OrderAt(u1, tail[k]) == OrderAt(users, tail[k])
    {
      assert tail[k] == refs[k + 1] && Points(users, refs[k + 1], stock);
      assert tail[k] != refs[0];
    }
  }

  /** The whole pass over a queue of distinct references to OPEN orders does what `PassEffect` says. */
  lemma {:induction false} FillPassEffect(users: map<string, User>, stock: string, price: int, refs: seq<Ref>)
    requires PassReady(users, stock, refs)
    ensures PassEffect(users, FillPass(users, stock, price, refs).0, price, refs, FillPass(users, stock, price, refs).1)
    decreases |refs|
  {
    if refs != [] {
      var head := refs[0];
      var tail := refs[1..];
      HeadReady(users, stock, refs);
      VisitEffect(users, stock, price, head);
      var (u1, keep) := Visit(users, stock, price, head);
      TailReady(users, u1, stock, price, refs, keep);
      FillPassEffect(u1, stock, price, tail);
      var (u2, rest) := FillPass(u1, stock, price, tail);
      assert head !in tail;
      assert refs == [head] + tail;
      ComposeEffect(users, u1, u2, price, head, keep, tail, rest);
    }
  }

  /** The queues after a pass: the stock's queue replaced by the references still queued, dropped if none are. */
  function Requeue(open: map<string, seq<Ref>>, stock: string, kept: seq<Ref>): map<string, seq<Ref>> {
    if kept == [] then open - {stock} else open[stock := kept]
  }

  lemma QueuesAfterPass(s: Service, stock: string, price: int, users: map<string, User>, kept: seq<Ref>)
    requires Valid(s) && stock in s.open
    requires PassEffect(s.users, users, price, s.open[stock], kept)
    ensures forall st :: st in Requeue(s.open, stock, kept) ==> QueueOk(users, st, Requeue(s.open, stock, kept)[st])
  {
    var refs := s.open[stock];
    var open := Requeue(s.open, stock, kept);
    assert QueueOk(s.users, stock, refs);
    forall st, k | st in open && 0 <= k < |open[st]|
      ensures Points(users, open[st][k], st)
    {
      var q := open[st];
      if st == stock {
        assert q[k] in refs;
        var j :| 0 <= j < |refs| && refs[j] == q[k];
        assert Points(s.users, refs[j], stock);
      } else {
        assert QueueOk(s.users, st, s.open[st]);
        assert Points(s.users, q[k], st);
        assert forall j :: 0 <= j < |refs| ==> OrderAt(s.users, refs[j]).stock == stock;
        assert OrderAt(s.users, q[k]).stock == st;
        assert q[k] !in refs;
      }
    }
  }

  lemma TrackedAfterPass(s: Service, stock: string, price: int, users: map<string, User>, kept: seq<Ref>)
    requires Valid(s) && stock in s.open
    requires PassEffect(s.users, users, price, s.open[stock], kept)
    ensures Tracked(s.(users := users, open := Requeue(s.open, stock, kept)))
  {
    var refs := s.open[stock];
    var open := Requeue(s.open, stock, kept);
    assert QueueOk(s.users, stock, refs);
    forall id, i | id in users && 0 <= i < |users[id].orders| && users[id].orders[i].status == Open
      ensures users[id].orders[i].stock in open && Ref(id, i) in open[users[id].orders[i].stock]
    {
      var o := s.users[id].orders[i];
      if Ref(id, i) in kept {
        var j :| 0 <= j < |refs| && refs[j] == Ref(id, i);
        assert Points(s.users, refs[j], stock);
      } else {
        assert users[id].orders[i] == o;
        assert o.stock in s.open && Ref(id, i) in s.open[o.stock];
      }
    }
  }

  /** A price update keeps the service valid. */
  lemma AutoFillValid(s: Service, stock: string, price: int)
    requires Valid(s)
    ensures Valid(AutoFill(s, stock, price))
  {
    if stock in s.open && s.open[stock] != [] {
      var refs := s.open[stock];
      assert QueueOk(s.users, stock, refs);
      FillPassEffect(s.users, stock, price, refs);
      var (users, kept) := FillPass(s.users, stock, price, refs);
      assert AutoFill(s, stock, price) == s.(users := users, open := Requeue(s.open, stock, kept));
      QueuesAfterPass(s, stock, price, users, kept);
      TrackedAfterPass(s, stock, price, users, kept);
    }
  }

  /** `addStock` keeps the service valid. */
  lemma AddStockValid(s: Service, stock: string, price: int)
    requires Valid(s)
    ensures Valid(AddStock(s, stock, price))
  {
    var names := if stock in s.prices then s.names else s.names + [stock];
    var t := s.(names := names, prices := s.prices[stock := price]);
    assert StocksOk(t);
    AutoFillValid(t, stock, price);
  }

  /**
   * On a price update, a waiting order that the new price does not favour
   * stays OPEN and stays queued; every order that leaves the queue is FILLED,
   * and the new price favoured it.
   */
  lemma AutoFillKeepsUnfavorable(s: Service, stock: string, price: int, ref: Ref)
    requires Valid(s) && stock in s.open && ref in s.open[stock]
    ensures var t := AutoFill(s, stock, price);
            var o := OrderAt(s.users, ref);
            && (!Favorable(o.action, price, o.limit) ==> stock in t.open && ref in t.open[stock] && OrderAt(t.users, ref) == o)
            && (stock !in t.open || ref !in t.open[stock] ==> Favorable(o.action, price, o.limit) && OrderAt(t.users, ref) == o.(status := Filled))
  {
    var refs := s.open[stock];
    assert QueueOk(s.users, stock, refs);
    var j :| 0 <= j < |refs| && refs[j] == ref;
    assert Points(s.users, refs[j], stock);
    FillPassEffect(s.users, stock, price, refs);
  }

  // ---------------------------------------------------------------------------
  // The holdings view
  // ---------------------------------------------------------------------------

  /** `r` is `s` with some elements left out, the rest in their original order. */
  predicate IsSubseq(r: seq<string>, s: seq<string>)
    decreases |s|
  {
    if r == [] then true
    else if s == [] then false
    else (r[0] == s[0] && IsSubseq(r[1..], s[1..])) || IsSubseq(r, s[1..])
  }

  /** The holdings view keeps the first-acquisition order: it is that list with the stocks no longer held left out. */
  lemma {:induction false} HeldInOrderOrdered(u: User, order: seq<string>)
    ensures IsSubseq(HeldInOrder(u, order), order)
    decreases |order|
  {
    if order != [] {
      HeldInOrderOrdered(u, order[1..]);
      var rest := HeldInOrder(u, order[1..]);
      var x := order[0];
      if x in u.holdings && u.holdings[x] > 0 {
        assert HeldInOrder(u, order) == [x] + rest;
        assert ([x] + rest)[1..] == rest;
      } else if rest != [] {
        assert HeldInOrder(u, order) == rest;
      }
    }
  }

  /** Placing an order never reorders or forgets the first-acquisition list: the old list is a prefix of the new one. */
  lemma SubmitKeepsAcquisitionOrder(s: Service, id: string, stock: string, kind: Kind, act: Action, qty: int, limit: int, k: string)
    requires k in s.users
    ensures s.users[k].firstAcquired <= Submit(s, id, stock, kind, act, qty, limit).0.users[k].firstAcquired
  {
  }

  /** Selling a whole holding drops it from the view but keeps its place: buying it again lists it where it was. */
  lemma SellOutKeepsPlace(u: User, stock: string, price1: int, qty2: int, price2: int)
    requires stock in u.holdings && stock in u.firstAcquired
    ensures var sold := ApplySell(u, stock, u.holdings[stock], price1);
            && stock !in sold.holdings
            && ApplyBuy(sold, stock, qty2, price2).firstAcquired == u.firstAcquired
  {
  }
}
