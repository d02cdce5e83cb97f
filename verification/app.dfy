/** The page as a whole: the product (with its list of received reviews),
    the review form, and the root component's cart, driven by one user
    event at a time. The global event bus is replaced by handing the review
    a submit publishes, if any, straight to the subscriber. */
module App {
  import opened Options
  import Cart
  import Product
  import ReviewForm

  /** The user interactions the page reacts to. */
  datatype Event =
    | Hover(index: nat)               // mouse over a colour box
    | AddClicked                      // "Add to Cart"
    | RemoveClicked                   // "Remove Item"
    | NameTyped(text: string)         // the name input
    | ReviewTyped(text: string)       // the review textarea
    | RatingSelected(value: int)      // the rating select, read as a number
    | RecommendChosen(yes: bool)      // one of the two radio buttons
    | Submitted                       // the form's submit button

  datatype State = State(
    product: Product.Data,
    reviews: seq<ReviewForm.Review>,
    form: ReviewForm.Form,
    cart: seq<int>)

  const Initial: State := State(Product.Initial, [], ReviewForm.Initial, [])

  /** The radio buttons carry the strings "true" and "false", not booleans. */
  function RadioValue(yes: bool): (v: string)
    ensures ReviewForm.TextTruthy(Some(v))
  {
    if yes then "true" else "false"
  }

  /** The "review-submitted" subscriber: a published review is pushed onto
      the product's list; nothing else is touched. */
  function Deliver(reviews: seq<ReviewForm.Review>, published: Option<ReviewForm.Review>): (r: seq<ReviewForm.Review>)
    ensures reviews <= r
    ensures published.None? ==> r == reviews
    ensures published.Some? ==> |r| == |reviews| + 1 && r[|reviews|] == published.value
  {
    match published
    case None => reviews
    case Some(review) => reviews + [review]
  }

  /** Events that can occur in state `s`: only rendered colour boxes can be
      hovered. */
  predicate Allowed(s: State, e: Event) {
    e.Hover? ==> e.index < |s.product.variants|
  }

  /** One event, handled to completion. */
  function Step(s: State, e: Event): (r: State)
    requires Product.Valid(s.product)
    requires Allowed(s, e)
    ensures Product.Valid(r.product) && r.product.variants == s.product.variants
    ensures s.reviews <= r.reviews
    ensures !e.Submitted? ==> r.reviews == s.reviews
    ensures !(e.AddClicked? || e.RemoveClicked?) ==> r.cart == s.cart
  {
    match e
    case Hover(index) => s.(product := Product.UpdateProduct(s.product, index))
    case AddClicked =>
      var request := Product.ClickAddToCart(s.product);
      if request.Some? then s.(cart := Cart.Add(s.cart, request.value)) else s
    case RemoveClicked => s.(cart := Cart.Remove(s.cart, Product.ClickRemoveItem(s.product)))
    case NameTyped(text) => s.(form := s.form.(name := Some(text)))
    case ReviewTyped(text) => s.(form := s.form.(review := Some(text)))
    case RatingSelected(value) => s.(form := s.form.(rating := Some(value)))
    case RecommendChosen(yes) => s.(form := s.form.(recommend := Some(RadioValue(yes))))
    case Submitted =>
      var outcome := ReviewForm.Submit(s.form);
      s.(form := outcome.form, reviews := Deliver(s.reviews, outcome.emitted))
  }

  /** A received review has every field the form required. */
  predicate ReviewComplete(review: ReviewForm.Review) {
    review.name != "" && review.review != "" && review.rating != 0
  }

  /** What holds of every reachable page state. */
  predicate Inv(s: State) {
    && Product.Valid(s.product)
    && ReviewForm.WellFormedErrors(s.form.errors)
    && (forall i :: 0 <= i < |s.reviews| ==> ReviewComplete(s.reviews[i]))
  }

  lemma InitialInv()
    ensures Inv(Initial)
  {
  }

  lemma StepKeepsInv(s: State, e: Event)
    requires Product.Valid(s.product) && Allowed(s, e)
    ensures Inv(s) ==> Inv(Step(s, e))
  {
    if Inv(s) && e.Submitted? {
      ReviewForm.SubmitKeepsWellFormed(s.form);
    }
  }

  /** Every hover in `events` names a variant of a product with `n` variants. */
  predicate HoversWithin(events: seq<Event>, n: nat) {
    forall i :: 0 <= i < |events| ==> (events[i].Hover? ==> events[i].index < n)
  }

  /** A session: the events applied in order. The received reviews only
      grow, and the invariant is kept throughout. */
  function Run(s: State, events: seq<Event>): (r: State)
    requires Product.Valid(s.product)
    requires HoversWithin(events, |s.product.variants|)
    ensures Product.Valid(r.product) && r.product.variants == s.product.variants
    ensures s.reviews <= r.reviews
    ensures Inv(s) ==> Inv(r)
    decreases |events|
  {
    if events == [] then s
    else
      var next := Step(s, events[0]);
      StepKeepsInv(s, events[0]);
      Run(next, events[1..])
  }

  // ---------------------------------------------------------------------
  // Scenarios

  /** Filling in every field (answering the recommendation either way) and
      submitting delivers exactly the name, text and rating, and leaves an
      empty form with no errors. */
  lemma FullSubmission(s: State, name: string, text: string, rating: int, yes: bool)
    requires Product.Valid(s.product)
    requires name != "" && text != "" && rating != 0
    ensures var r := Run(s, [NameTyped(name), ReviewTyped(text), RatingSelected(rating), RecommendChosen(yes), Submitted]);
      && r.reviews == s.reviews + [ReviewForm.Review(name, text, rating)]
      && r.form == ReviewForm.Initial
      && r.cart == s.cart
  {
    var s1 := Step(s, NameTyped(name));
    var s2 := Step(s1, ReviewTyped(text));
    var s3 := Step(s2, RatingSelected(rating));
    var s4 := Step(s3, RecommendChosen(yes));
    assert ReviewForm.Complete(s4.form) by {
      assert ReviewForm.TextTruthy(Some(RadioValue(yes)));
      forall f: ReviewForm.Field
        ensures ReviewForm.Filled(s4.form, f)
      {
      }
    }
    var evs := [NameTyped(name), ReviewTyped(text), RatingSelected(rating), RecommendChosen(yes), Submitted];
    assert Run(s, evs) == Run(s1, evs[1..]);
    assert Run(s1, evs[1..]) == Run(s2, evs[2..]);
    assert Run(s2, evs[2..]) == Run(s3, evs[3..]);
    assert Run(s3, evs[3..]) == Run(s4, evs[4..]);
    assert Run(s4, evs[4..]) == Run(Step(s4, Submitted), []);
  }

  /** With the out-of-stock blue variant selected, "Add to Cart" does
      nothing while "Remove Item" still removes every blue entry. */
  lemma OutOfStockVariant(cart: seq<int>)
    ensures var s := Step(Initial.(cart := cart), Hover(1));
      && Step(s, AddClicked).cart == cart
      && Step(s, RemoveClicked).cart == Cart.Remove(cart, 2235)
  {
    Product.InitialStock();
  }
}
