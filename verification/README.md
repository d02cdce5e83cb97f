# Product page with cart and review form — Dafny model

This project models the behaviour in `vue/main.js` of a small product page.
It covers the review form's submit step and its validation, the cart's add
and remove operations, and the product's variant selection with its two
cart buttons. Every handler is modelled as a pure step over immutable data.

- `Options` — the `Option` type. It stands for a JavaScript `null` or a value,
  and for an event that is or is not emitted.
- `Strings` — `String.prototype.includes`, and facts about it.
- `ReviewForm` — the `product-view` component. Its state is a draft of
  name, review, rating and recommend, plus the error list. `Submit` is
  `onSubmit`. JavaScript truthiness is spelled out: a text field counts as
  filled when it is present and non-empty, and the rating when it is present
  and non-zero.
- `Cart` — the root component's `updateCart` and `removeFromCart` over a
  sequence of variant ids.
- `Product` — the `product` component's variants and selected index:
  `updateProduct`, `inStock`, and the ids its two buttons emit.
- `App` — the page as one state driven by user events. The global event bus
  is replaced by `Submit` returning the published review, if any. The
  `review-submitted` subscriber (`Deliver`) appends that review to the
  product's list. In `vue/main.js` the product only emits `add-to-cart` and
  `remove-from-cart` (lines 62 and 65). The page markup, which is not part of
  this model, binds them to the root's `updateCart` and `removeFromCart`
  (lines 195-200). `App.Step` assumes that binding.

JavaScript truthiness decides three edge cases:
- A rating of `0` fails validation, because the code tests `this.rating` for
  truthiness.
- The recommend radio buttons hold the strings `"true"` and `"false"`. Both
  are truthy, so answering "no" still passes validation.
- `inStock` is the raw quantity, tested for truthiness. A negative quantity
  counts as in stock; only `0` disables "Add to Cart".

## Model

| member | source | states |
|---|---|---|
| Strings.IncludesAt | vue/main.js:142-145 | The `includes` test used to skip duplicate messages holds exactly when the label occurs at some index of the message. |
| ReviewForm.Submit | vue/main.js:127-147 | A review is published exactly when all four fields are truthy. The review carries the name, text and rating (not the recommendation), and the form returns to its all-null, error-free start. A failed submit publishes nothing and keeps the draft. The old error list is a prefix of the new one, and every missing field ends up mentioned. |
| ReviewForm.Require | vue/main.js:142-145 | One validation line only ever appends, and at most one message. Afterwards a missing field is mentioned. A filled or already-mentioned field leaves the list as it was. |
| ReviewForm.FailedSubmitAppends | vue/main.js:141-146 | A failed submit appends exactly one message per field that is missing and not mentioned by the list it started from, in the order Name, Review, Rating, Recommend. |
| ReviewForm.MessageMentions | vue/main.js:142-145 | The message for one field contains the label of another field exactly when the two fields are the same. |
| ReviewForm.MentionsAfterAppend | vue/main.js:142-145 | Appending a field's message adds a mention of that field's label and of no other label. |
| ReviewForm.OneMissingField | vue/main.js:141-146 | When exactly one field is missing and not yet mentioned, a submit adds exactly that field's message. |
| ReviewForm.FailedSubmitIdempotent | vue/main.js:141-146 | Submitting the same invalid draft a second time changes neither the form nor the outcome. |
| ReviewForm.SubmitKeepsWellFormed | vue/main.js:124-146 | If the error list holds only form messages, each once, it still does after any submit. |
| ReviewForm.AtMostOnePerLabel | vue/main.js:142-145 | In a well-formed error list, no two messages mention the same field's label. |
| ReviewForm.WellFormedBound | vue/main.js:142-145 | A well-formed error list has at most four entries. |
| ReviewForm.PendingMembers | vue/main.js:142-145 | A field gets a new message exactly when it is missing and was not yet mentioned. |
| Cart.Add | vue/main.js:195-197 | Adding grows the cart by exactly one. The earlier entries are untouched and the new id is last. |
| Cart.Remove | vue/main.js:198-200 | After removal the id is absent. Every remaining id was in the cart. The length drops by the number of occurrences of the id. |
| Cart.RemoveIsRemoval | vue/main.js:198-200 | Removal yields a subsequence of the cart: all other ids keep their relative order and their number of copies, and every copy of the id is gone. |
| Cart.RemovalUnique | vue/main.js:198-200 | Any subsequence that drops exactly the copies of the id equals `Remove`'s result, so `Remove` is the filter. |
| Cart.RemoveConcat | vue/main.js:198-200 | Removal works on each part of a cart separately, so surviving ids keep their order. |
| Cart.RemoveIdempotent | vue/main.js:198-200 | Removing an id twice is the same as removing it once. |
| Cart.RemoveAbsent | vue/main.js:198-200 | Removing an id that is not in the cart leaves the cart unchanged. |
| Cart.RemoveAfterAdd | vue/main.js:195-200 | Removing an id after adding it deletes that add along with all earlier copies. An add of a different id survives at the end. |
| Cart.CountAdd | vue/main.js:195-197 | An add raises the count of the added id by one and leaves every other count unchanged. |
| Cart.AddAll | vue/main.js:195-197 | A series of adds leaves the original cart followed by the added ids, in call order. |
| Product.UpdateProduct | vue/main.js:67-69 | Hovering a colour box selects that index. The variants are unchanged, and the selected variant is the hovered one. |
| Product.ClickAddToCart | vue/main.js:61-63 | The button is disabled while `inStock` (line 74, the raw quantity) is falsy, through its binding at line 38. So a click emits nothing exactly when the selected variant's quantity is 0, and otherwise emits the selected variant's id. |
| Product.ClickRemoveItem | vue/main.js:64-66 | "Remove Item" always emits the id of the selected variant, which is one of the product's variants. |
| Product.InitialStock | vue/main.js:51-54 | With the initial data, adding emits the green variant's id 2234. After hovering the blue variant (quantity 0), adding emits nothing while removing still emits 2235. |
| App.RadioValue | vue/main.js:113-115 | Both radio values are truthy strings. |
| App.Deliver | vue/main.js:78-82 | The subscriber only appends: a published review becomes the new last entry, and no review leaves the list unchanged. |
| App.Step | vue/main.js:26-43 | Handling one event keeps the variants and a valid selection. Reviews change only on submit and only by growing. The cart changes only on the two cart buttons. |
| App.InitialInv | vue/main.js:45-59 | The initial page state satisfies the invariant: the selection is valid, the error list is empty, and there are no reviews. |
| App.StepKeepsInv | vue/main.js:124-146 | Each event keeps the invariant. The error list stays well formed, and every received review has a non-empty name and text and a non-zero rating. |
| App.Run | vue/main.js:78-82 | Over any session the received reviews only grow (the old list is a prefix), the selection stays valid, and the invariant holds throughout. |
| App.FullSubmission | vue/main.js:127-140 | Filling in all fields, answering the recommendation either way, then submitting appends exactly `{name, review, rating}` to the reviews. The form is reset and the cart is untouched. |
| App.OutOfStockVariant | vue/main.js:37-40 | With the out-of-stock variant selected, "Add to Cart" leaves the cart unchanged and "Remove Item" removes every copy of its id. |

## Left out

- Templates, DOM binding, `v-show`/`v-if` rendering, CSS classes and image
  paths: presentation only.
- The `product-tabs` component and its tab switching: a bare assignment with
  no logic beyond visibility. The review form is never re-created by it, so
  its state simply persists.
- The Vue reactivity system and the global event bus as a real
  publish/subscribe object. They are replaced by `Submit` returning an
  `Option` that `Deliver` appends.
- The `title`, `image`, `productBrand` and `shipping` computed values, the
  `premium` prop, and the static brand, details and sizes data: constant
  selections with nothing to prove.
- The rating is modelled as an integer. `v-model.number` can also yield a
  non-numeric value or `NaN` (also falsy); the select only offers 1 to 5.
- Product.UpdateProduct: requires the index to be in range. The source does
  no check, but only indices of rendered colour boxes reach it, and an
  out-of-range index would leave later reads undefined.
- `includes` is modelled on sequences of characters. JavaScript's UTF-16
  code units and Unicode details are not modelled, and none of the fixed
  labels or messages needs them.
