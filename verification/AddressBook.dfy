/**
 The bidirectional map of src/server/low_latency.rs:70 as a partial bijection: inserting a
 pair displaces every pair that shares its address or its user.
 */
module AddressBook {
  import opened Wrappers
  import opened Messages

  datatype Book = Book(userOf: map<Address, Username>, addressOf: map<Username, Address>) {

    /** The two maps are each other's inverse. */
    ghost predicate OneToOne() {
      && (forall a: Address :: a in userOf ==> userOf[a] in addressOf && addressOf[userOf[a]] == a)
      && (forall u :: u in addressOf ==> addressOf[u] in userOf && userOf[addressOf[u]] == u)
    }

    ghost predicate Has(a: Address, u: Username) {
      a in userOf && userOf[a] == u
    }

    function GetByFirst(a: Address): (r: Option<Username>)
      ensures forall u :: r == Some(u) <==> Has(a, u)
    {
      if a in userOf then Some(userOf[a]) else None
    }

    function GetBySecond(u: Username): (r: Option<Address>)
      ensures OneToOne() ==> forall a: Address :: r == Some(a) <==> Has(a, u)
    {
      if u in addressOf then Some(addressOf[u]) else None
    }

    function RemoveBySecond(u: Username): (r: Book)
      ensures OneToOne() ==> r.OneToOne()
      ensures OneToOne() ==> forall a: Address, v :: r.Has(a, v) <==> Has(a, v) && v != u
    {
      if u in addressOf then Book(userOf - {addressOf[u]}, addressOf - {u}) else this
    }

    function RemoveByFirst(a: Address): (r: Book)
      ensures OneToOne() ==> r.OneToOne()
      ensures OneToOne() ==> forall b: Address, v :: r.Has(b, v) <==> Has(b, v) && b != a
    {
      if a in userOf then Book(userOf - {a}, addressOf - {userOf[a]}) else this
    }

    function Insert(a: Address, u: Username): (r: Book)
      ensures OneToOne() ==> r.OneToOne()
      ensures OneToOne() ==> forall b: Address, v ::
                r.Has(b, v) <==> (b == a && v == u) || (Has(b, v) && b != a && v != u)
    {
      var cleared := RemoveByFirst(a).RemoveBySecond(u);
      Book(cleared.userOf[a := u], cleared.addressOf[u := a])
    }
  }

  const EMPTY_BOOK := Book(map[], map[])
}
