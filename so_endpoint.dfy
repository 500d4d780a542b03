/**
 * `chen::so::endpoint`: an address and a port. Its setters replace one
 * field each, and its six comparison operators order endpoints by address
 * first and by port when the addresses are equal. The address's own
 * operators are a parameter, so the model holds for IPv4 and IPv6 alike.
 */
module SoEndpoint {
  import opened AddressText

  /** The `==`, `<` and `<=` operators of `ip::address` that an endpoint delegates to. */
  datatype AddressOrder<!A> = AddressOrder(eq: (A, A) -> bool, lt: (A, A) -> bool, le: (A, A) -> bool)

  /**
   * The address operators form an order: `==` is an equivalence that `<`
   * respects, `<` is strict and total up to `==`, and `<=` is `<` or `==`.
   */
  ghost predicate Lawful<A(!new)>(ord: AddressOrder<A>)
  {
    (forall x :: ord.eq(x, x))
    && (forall x, y :: ord.eq(x, y) ==> ord.eq(y, x))
    && (forall x, y, z :: ord.eq(x, y) && ord.eq(y, z) ==> ord.eq(x, z))
    && (forall x, y :: ord.lt(x, y) || ord.eq(x, y) || ord.lt(y, x))
    && (forall x, y :: ord.lt(x, y) ==> !ord.eq(x, y) && !ord.lt(y, x))
    && (forall x, y, z :: ord.lt(x, y) && ord.lt(y, z) ==> ord.lt(x, z))
    && (forall x, y, z :: ord.eq(x, y) && ord.lt(y, z) ==> ord.lt(x, z))
    && (forall x, y, z :: ord.lt(x, y) && ord.eq(y, z) ==> ord.lt(x, z))
    && (forall x, y :: ord.le(x, y) <==> ord.lt(x, y) || ord.eq(x, y))
  }

  /**
   * The order of `address_v4` on (address, prefix length) pairs: by address,
   * and by prefix length when the addresses are equal.
   */
  function V4Order(): AddressOrder<(int, int)>
  {
    AddressOrder(
      (x: (int, int), y: (int, int)) => x == y,
      (x: (int, int), y: (int, int)) => if x.0 == y.0 then x.1 < y.1 else x.0 < y.0,
      (x: (int, int), y: (int, int)) => if x.0 == y.0 then x.1 <= y.1 else x.0 < y.0)
  }

  /** The IPv4 order meets the laws, so an endpoint over IPv4 addresses is totally ordered. */
  lemma V4OrderLawful()
    ensures Lawful(V4Order())
  {
  }

  /** `endpoint`: an address and a port, each replaced in place by its setter. */
  class Endpoint<A> {
    var addr: A
    var port: U16

    /** `endpoint(addr, port)` with an address value. */
    constructor (a: A, p: U16)
      ensures addr == a && port == p
    {
      addr, port := a, p;
    }

    /** `addr(value)`: replaces the address, and the port stays. */
    method SetAddr(value: A)
      modifies this`addr
      ensures addr == value && port == old(port)
    {
      addr := value;
    }

    /** `port(value)`: replaces the port, and the address stays. */
    method SetPort(value: U16)
      modifies this`port
      ensures port == value && addr == old(addr)
    {
      port := value;
    }

    /** `operator==`: equal addresses and equal ports. */
    predicate Equal(o: Endpoint<A>, ord: AddressOrder<A>)
      reads this, o
    {
      ord.eq(addr, o.addr) && port == o.port
    }

    /** `operator!=`: not `==`. */
    predicate NotEqual(o: Endpoint<A>, ord: AddressOrder<A>)
      reads this, o
    {
      !Equal(o, ord)
    }

    /** `operator<`: the ports when the addresses are equal, else the addresses. */
    predicate Less(o: Endpoint<A>, ord: AddressOrder<A>)
      reads this, o
    {
      if ord.eq(addr, o.addr) then port < o.port else ord.lt(addr, o.addr)
    }

    /** `operator>`: `<` with the operands swapped. */
    predicate Greater(o: Endpoint<A>, ord: AddressOrder<A>)
      reads this, o
    {
      o.Less(this, ord)
    }

    /** `operator<=`: the ports when the addresses are equal, else the addresses. */
    predicate LessEq(o: Endpoint<A>, ord: AddressOrder<A>)
      reads this, o
    {
      if ord.eq(addr, o.addr) then port <= o.port else ord.le(addr, o.addr)
    }

    /** `operator>=`: `<=` with the operands swapped. */
    predicate GreaterEq(o: Endpoint<A>, ord: AddressOrder<A>)
      reads this, o
    {
      o.LessEq(this, ord)
    }
  }

  /**
   * `<` is the lexicographic order on (address, port): a smaller address,
   * or an equal address and a smaller port.
   */
  lemma Lexicographic<A(!new)>(a: Endpoint<A>, b: Endpoint<A>, ord: AddressOrder<A>)
    requires Lawful(ord)
    ensures a.Less(b, ord) <==> ord.lt(a.addr, b.addr) || (ord.eq(a.addr, b.addr) && a.port < b.port)
  {
  }

  /** Endpoints are ordered strictly and totally: exactly one of `<`, `==` and `>` holds. */
  lemma Trichotomy<A(!new)>(a: Endpoint<A>, b: Endpoint<A>, ord: AddressOrder<A>)
    requires Lawful(ord)
    ensures a.Less(b, ord) || a.Equal(b, ord) || a.Greater(b, ord)
    ensures !(a.Less(b, ord) && a.Equal(b, ord))
    ensures !(a.Less(b, ord) && a.Greater(b, ord))
    ensures !(a.Equal(b, ord) && a.Greater(b, ord))
  {
  }

  /** `<` is transitive. */
  lemma LessTransitive<A(!new)>(a: Endpoint<A>, b: Endpoint<A>, c: Endpoint<A>, ord: AddressOrder<A>)
    requires Lawful(ord) && a.Less(b, ord) && b.Less(c, ord)
    ensures a.Less(c, ord)
  {
    if ord.eq(a.addr, b.addr) && ord.eq(b.addr, c.addr) {
      assert ord.eq(a.addr, c.addr);
    } else if ord.eq(a.addr, b.addr) {
      assert ord.lt(a.addr, c.addr);
    } else if ord.eq(b.addr, c.addr) {
      assert ord.lt(a.addr, c.addr);
    } else {
      assert ord.lt(a.addr, c.addr);
    }
  }

  /**
   * `<=` holds exactly when `<` or `==` does, `>=` exactly when `>` or `==`
   * does, and `!=` is the negation of `==`.
   */
  lemma DerivedOperators<A(!new)>(a: Endpoint<A>, b: Endpoint<A>, ord: AddressOrder<A>)
    requires Lawful(ord)
    ensures a.LessEq(b, ord) <==> a.Less(b, ord) || a.Equal(b, ord)
    ensures a.GreaterEq(b, ord) <==> a.Greater(b, ord) || a.Equal(b, ord)
    ensures a.NotEqual(b, ord) <==> !a.Equal(b, ord)
    ensures a.Greater(b, ord) <==> b.Less(a, ord)
  {
  }
}
