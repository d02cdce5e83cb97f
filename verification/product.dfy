/** The `product` component: a fixed list of variants, the index of the one
    under the pointer, and the cart requests its two buttons emit. */
module Product {
  import opened Options

  /** One colour of the product; `quantity` is the raw stock count. */
  datatype Variant = Variant(id: int, color: string, quantity: int, image: string)

  /** The parts of the component's data that its methods read or change. */
  datatype Data = Data(variants: seq<Variant>, selectedVariant: nat)

  /** The selected index points at a variant. */
  predicate Valid(p: Data) {
    p.selectedVariant < |p.variants|
  }

  /** The component's initial data: two variants, the first selected. */
  const Initial: Data := Data(
    [ Variant(2234, "green", 10, "./assets/vmSocks-green-onWhite.jpg"),
      Variant(2235, "blue", 0, "./assets/vmSocks-blue-onWhite.jpg") ],
    0)

  function Selected(p: Data): Variant
    requires Valid(p)
  {
    p.variants[p.selectedVariant]
  }

  /** `updateProduct(index)`: hovering a colour box selects that variant and
      changes nothing else. The source does no bounds check; only indices of
      rendered boxes reach it. */
  function UpdateProduct(p: Data, index: nat): (r: Data)
    requires index < |p.variants|
    ensures Valid(r)
    ensures r.variants == p.variants && r.selectedVariant == index
    ensures Selected(r) == p.variants[index]
  {
    p.(selectedVariant := index)
  }

  /** The `inStock` computed value: the raw quantity, used for its
      truthiness (zero is out of stock; any other count is in stock). */
  function InStock(p: Data): int
    requires Valid(p)
  {
    Selected(p).quantity
  }

  predicate InStockTruthy(p: Data)
    requires Valid(p)
  {
    InStock(p) != 0
  }

  /** A click on "Add to Cart": the button is disabled while `inStock` is
      falsy, so the click emits the selected variant's id only when in stock. */
  function ClickAddToCart(p: Data): (r: Option<int>)
    requires Valid(p)
    ensures r == None <==> p.variants[p.selectedVariant].quantity == 0
    ensures r.Some? ==> r.value == p.variants[p.selectedVariant].id
  {
    if InStockTruthy(p) then Some(Selected(p).id) else None
  }

  /** A click on "Remove Item": always enabled, emits the selected variant's id. */
  function ClickRemoveItem(p: Data): (id: int)
    requires Valid(p)
    ensures exists v :: v in p.variants && v.id == id
    ensures id == p.variants[p.selectedVariant].id
  {
    Selected(p).id
  }

  /** Hovering over the blue socks, which have no stock, disables adding but
      not removing; the green ones can be added. */
  lemma InitialStock()
    ensures ClickAddToCart(Initial) == Some(2234)
    ensures ClickAddToCart(UpdateProduct(Initial, 1)) == None
    ensures ClickRemoveItem(UpdateProduct(Initial, 1)) == 2235
  {
  }
}
