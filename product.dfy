/**
 * A product of a vending node's catalogue. Its id, name and price are fixed
 * when it is loaded; only the quantity on the shelf changes, one item at a
 * time. Prices are in cents.
 */
module Products {
  import opened Tables

  /** retrieveOne on a quantity: one item fewer, or None (ProductNotAvailable) when the shelf is empty. */
  function Retrieve(q: int): Option<int> {
    if q > 0 then Some(q - 1) else None
  }

  /** n retrieveOne calls in a row, None as soon as one of them throws. */
  function RetrieveTimes(q: int, n: nat): Option<int> {
    if n == 0 then Some(q)
    else match Retrieve(q)
      case None => None
      case Some(q') => RetrieveTimes(q', n - 1)
  }

  /**
   * From a quantity q >= 0, exactly q calls succeed, each taking one item
   * and never going below zero, and the next one throws.
   */
  lemma {:induction false} ExactlyQuantityRetrieves(q: nat, n: nat)
    ensures n <= q ==> RetrieveTimes(q, n) == Some(q - n) && q - n >= 0
    ensures n > q ==> RetrieveTimes(q, n) == None
  {
    if n > 0 && q > 0 {
      ExactlyQuantityRetrieves(q - 1, n - 1);
    }
  }

  /** One line of the purchase menu. */
  datatype MenuRow = MenuRow(id: int, name: string, price: int, quantity: int)

  class Product {
    const id: int
    const name: string
    const price: int
    var quantity: int

    constructor (id: int, name: string, price: int, quantity: int)
      ensures this.id == id && this.name == name && this.price == price && this.quantity == quantity
    {
      this.id := id;
      this.name := name;
      this.price := price;
      this.quantity := quantity;
    }

    /**
     * retrieveOne: take one item off the shelf; when there is none, report
     * ProductNotAvailable and leave the quantity alone. A quantity that
     * starts at zero or above never goes negative.
     */
    method RetrieveOne() returns (available: bool)
      modifies this
      ensures available <==> old(quantity) > 0
      ensures Retrieve(old(quantity)) == if available then Some(quantity) else None
      ensures available ==> quantity == old(quantity) - 1
      ensures !available ==> quantity == old(quantity)
      ensures old(quantity) >= 0 ==> quantity >= 0
    {
      if quantity > 0 {
        quantity := quantity - 1;
        available := true;
      } else {
        available := false;
      }
    }

    /** getItemMenu: the product is listed, with its current quantity, only while some is left. */
    function ItemMenu(): (row: Option<MenuRow>)
      reads this
      ensures row.Some? <==> quantity > 0
      ensures row.Some? ==> row.value.id == id && row.value.quantity == quantity && row.value.quantity >= 1
    {
      if quantity > 0 then Some(MenuRow(id, name, price, quantity)) else None
    }
  }
}
