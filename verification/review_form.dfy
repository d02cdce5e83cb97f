/** The review form (`product-view`): a draft of four fields plus a list of
    error messages, and the submit step that either emits a finished review
    and resets the draft, or records a message for every missing field.

    JavaScript truthiness is explicit: a text field counts as filled when it
    is present and non-empty, the rating when it is present and non-zero. */
module ReviewForm {
  import opened Options
  import opened Strings

  /** The four required inputs, in the order the form checks them. */
  datatype Field = Name | ReviewText | Rating | Recommend

  const Fields: seq<Field> := [Name, ReviewText, Rating, Recommend]

  /** The word searched for in existing messages before adding a new one. */
  function Label(f: Field): string {
    match f
    case Name => "Name"
    case ReviewText => "Review"
    case Rating => "Rating"
    case Recommend => "Recommend"
  }

  /** The message shown for a missing field (the wording, typo included, is
      the form's own). */
  function Message(f: Field): string {
    Label(f) + " id required!"
  }

  const AllMessages: set<string> :=
    {Message(Name), Message(ReviewText), Message(Rating), Message(Recommend)}

  /** The form's data: four draft fields that start out `null`, and the
      error list. */
  datatype Form = Form(
    name: Option<string>,
    review: Option<string>,
    rating: Option<int>,
    recommend: Option<string>,
    errors: seq<string>)

  /** The payload published on "review-submitted"; the recommendation is not
      part of it. */
  datatype Review = Review(name: string, review: string, rating: int)

  /** The result of one submit: the next form state and the review published,
      if any. */
  datatype Outcome = Outcome(form: Form, emitted: Option<Review>)

  const Initial: Form := Form(None, None, None, None, [])

  predicate TextTruthy(o: Option<string>) {
    o.Some? && o.value != ""
  }

  predicate NumberTruthy(o: Option<int>) {
    o.Some? && o.value != 0
  }

  /** Whether field `f` of the draft is JavaScript-truthy. */
  predicate Filled(form: Form, f: Field) {
    match f
    case Name => TextTruthy(form.name)
    case ReviewText => TextTruthy(form.review)
    case Rating => NumberTruthy(form.rating)
    case Recommend => TextTruthy(form.recommend)
  }

  /** Every required field is filled. */
  predicate Complete(form: Form) {
    forall f: Field :: Filled(form, f)
  }

  /** `errors.some(e => e.includes(word))`. */
  predicate Mentions(errors: seq<string>, word: string) {
    exists i | 0 <= i < |errors| :: Includes(errors[i], word)
  }

  /** The draft fields of two forms agree; only the error lists may differ. */
  predicate SameDraft(a: Form, b: Form) {
    a.name == b.name && a.review == b.review && a.rating == b.rating && a.recommend == b.recommend
  }

  /** One line of the failing branch: add the message for `f` when `f` is not
      filled and no message in `errors` mentions its label. */
  function Require(form: Form, f: Field, errors: seq<string>): (r: seq<string>)
    ensures errors <= r && |r| <= |errors| + 1
    ensures !Filled(form, f) ==> Mentions(r, Label(f))
    ensures (Filled(form, f) || Mentions(errors, Label(f))) ==> r == errors
  {
    if !Filled(form, f) && !Mentions(errors, Label(f)) then
      PrefixIncluded(Label(f), " id required!");
      assert Includes((errors + [Message(f)])[|errors|], Label(f));
      errors + [Message(f)]
    else
      errors
  }

  /** `onSubmit`: publish the review and reset the form when every field is
      filled; otherwise keep the draft and add the missing messages. */
  function Submit(form: Form): (r: Outcome)
    ensures r.emitted.Some? <==> Complete(form)
    ensures Complete(form) ==>
      // the three Filled terms make the `.value` selections below well formed
      && Filled(form, Name) && Filled(form, ReviewText) && Filled(form, Rating)
      && r.form == Initial
      && r.emitted == Some(Review(form.name.value, form.review.value, form.rating.value))
    ensures !Complete(form) ==>
      && SameDraft(r.form, form)
      && form.errors <= r.form.errors
      && (forall f: Field :: !Filled(form, f) ==> Mentions(r.form.errors, Label(f)))
  {
    if TextTruthy(form.name) && TextTruthy(form.review) && NumberTruthy(form.rating) && TextTruthy(form.recommend) then
      Outcome(Initial, Some(Review(form.name.value, form.review.value, form.rating.value)))
    else
      var e1 := Require(form, Name, form.errors);
      var e2 := Require(form, ReviewText, e1);
      var e3 := Require(form, Rating, e2);
      var e4 := Require(form, Recommend, e3);
      MentionsGrows(e1, e4, Label(Name));
      MentionsGrows(e2, e4, Label(ReviewText));
      MentionsGrows(e3, e4, Label(Rating));
      assert !(Filled(form, Name) && Filled(form, ReviewText) && Filled(form, Rating) && Filled(form, Recommend));
      Outcome(form.(errors := e4), None)
  }

  // ---------------------------------------------------------------------
  // Messages and the labels they mention

  /** A message stays mentioned when the list only grows at its end. */
  lemma MentionsGrows(a: seq<string>, b: seq<string>, word: string)
    requires a <= b
    ensures Mentions(a, word) ==> Mentions(b, word)
  {
    if Mentions(a, word) {
      var i :| 0 <= i < |a| && Includes(a[i], word);
      assert b[i] == a[i];
    }
  }

  /** The message for `g` mentions the label of `f` exactly when `f` is `g`. */
  lemma MessageMentions(g: Field, f: Field)
    ensures Includes(Message(g), Label(f)) <==> f == g
  {
    if f == g {
      PrefixIncluded(Label(f), " id required!");
    } else {
      // each label has a character the other messages lack
      match (g, f)
      case (Name, ReviewText) => NotIncluded(Message(g), Label(f), 'R');
      case (Name, Rating) => NotIncluded(Message(g), Label(f), 'R');
      case (Name, Recommend) => NotIncluded(Message(g), Label(f), 'R');
      case (ReviewText, Name) => NotIncluded(Message(g), Label(f), 'N');
      case (ReviewText, Rating) => NotIncluded(Message(g), Label(f), 'a');
      case (ReviewText, Recommend) => NotIncluded(Message(g), Label(f), 'c');
      case (Rating, Name) => NotIncluded(Message(g), Label(f), 'N');
      case (Rating, ReviewText) => NotIncluded(Message(g), Label(f), 'v');
      case (Rating, Recommend) => NotIncluded(Message(g), Label(f), 'c');
      case (Recommend, Name) => NotIncluded(Message(g), Label(f), 'N');
      case (Recommend, ReviewText) => NotIncluded(Message(g), Label(f), 'v');
      case (Recommend, Rating) => NotIncluded(Message(g), Label(f), 'a');
    }
  }

  /** Appending the message for `g` adds a mention of `g`'s word and of no
      other label. */
  lemma MentionsAfterAppend(es: seq<string>, g: Field, f: Field)
    ensures Mentions(es + [Message(g)], Label(f)) <==> Mentions(es, Label(f)) || f == g
  {
    var es' := es + [Message(g)];
    MessageMentions(g, f);
    if Mentions(es', Label(f)) && !Mentions(es, Label(f)) {
      var i :| 0 <= i < |es'| && Includes(es'[i], Label(f));
      assert i == |es|;
    }
    if Mentions(es, Label(f)) {
      MentionsGrows(es, es', Label(f));
    }
    if f == g {
      assert Includes(es'[|es|], Label(f));
    }
  }

  // ---------------------------------------------------------------------
  // What a failing submit appends

  /** The fields among `fs` that are missing and have no message yet,
      judged against the error list as it was before the submit. */
  function Pending(form: Form, fs: seq<Field>): seq<Field>
  {
    if fs == [] then []
    else (if NeedsMessage(form, fs[0]) then [fs[0]] else []) + Pending(form, fs[1..])
  }

  /** Field `f` is missing and the form's error list does not mention it. */
  predicate NeedsMessage(form: Form, f: Field) {
    !Filled(form, f) && !Mentions(form.errors, Label(f))
  }

  function MessagesFor(fs: seq<Field>): (r: seq<string>)
    ensures |r| == |fs|
    ensures forall i :: 0 <= i < |fs| ==> r[i] == Message(fs[i])
  {
    if fs == [] then [] else [Message(fs[0])] + MessagesFor(fs[1..])
  }

  /** A failing submit appends, in the order Name, Review, Rating, Recommend,
      one message for each field that is missing and not yet mentioned by the
      list it started from. */
  lemma FailedSubmitAppends(form: Form)
    requires !Complete(form)
    ensures Submit(form).form.errors == form.errors + MessagesFor(Pending(form, Fields))
  {
    assert form.errors + MessagesFor(Pending(form, [])) == form.errors;
    RequireStep(form, [], Name);
    assert [] + [Name] == [Name];
    RequireStep(form, [Name], ReviewText);
    RequireStep(form, [Name, ReviewText], Rating);
    RequireStep(form, [Name, ReviewText, Rating], Recommend);
    assert [Name, ReviewText, Rating] + [Recommend] == Fields;
  }

  /** Running the `Require` line for a field not checked before extends the
      list by that field's pending message, if any. */
  lemma RequireStep(form: Form, done: seq<Field>, f: Field)
    requires f !in done
    ensures Require(form, f, form.errors + MessagesFor(Pending(form, done)))
         == form.errors + MessagesFor(Pending(form, done + [f]))
  {
    var p := Pending(form, done);
    PendingMembers(form, done, f);
    RequireAfter(form, form.errors, p, f);
    PendingConcat(form, done, [f]);
    MessagesConcat(p, Pending(form, [f]));
  }

  /** A field is pending exactly when it is among `fs`, missing, and not yet
      mentioned. */
  lemma {:induction false} PendingMembers(form: Form, fs: seq<Field>, f: Field)
    ensures f in Pending(form, fs) <==> f in fs && !Filled(form, f) && !Mentions(form.errors, Label(f))
    decreases |fs|
  {
    if fs != [] {
      PendingMembers(form, fs[1..], f);
      assert fs == [fs[0]] + fs[1..];
    }
  }

  lemma {:induction false} PendingConcat(form: Form, a: seq<Field>, b: seq<Field>)
    ensures Pending(form, a + b) == Pending(form, a) + Pending(form, b)
    decreases |a|
  {
    if a == [] {
      assert a + b == b;
    } else {
      var ab := a + b;
      assert ab != [] && ab[0] == a[0];
      assert ab[1..] == a[1..] + b;
      PendingConcat(form, a[1..], b);
      var head := if NeedsMessage(form, a[0]) then [a[0]] else [];
      assert Pending(form, ab) == head + Pending(form, a[1..] + b);
      assert Pending(form, a) == head + Pending(form, a[1..]);
    }
  }

  lemma MessagesConcat(a: seq<Field>, b: seq<Field>)
    ensures MessagesFor(a + b) == MessagesFor(a) + MessagesFor(b)
  {
  }

  /** Appending the messages of fields other than `f` does not change whether
      the list mentions `f`. */
  lemma {:induction false} MentionsAfterMessages(es: seq<string>, fs: seq<Field>, f: Field)
    ensures Mentions(es + MessagesFor(fs), Label(f)) <==> Mentions(es, Label(f)) || f in fs
    decreases |fs|
  {
    if fs == [] {
      assert es + MessagesFor(fs) == es;
    } else {
      var init := fs[..|fs| - 1];
      var last := fs[|fs| - 1];
      assert fs == init + [last];
      MessagesConcat(init, [last]);
      assert es + MessagesFor(fs) == (es + MessagesFor(init)) + [Message(last)];
      MentionsAfterAppend(es + MessagesFor(init), last, f);
      MentionsAfterMessages(es, init, f);
    }
  }

  /** The `Require` line for `f`, run after the messages of the earlier
      fields `done` were appended, decides exactly as it would have against
      the original list. */
  lemma RequireAfter(form: Form, es: seq<string>, done: seq<Field>, f: Field)
    requires es == form.errors
    requires f !in done
    ensures Require(form, f, es + MessagesFor(done)) == es + MessagesFor(done) + MessagesFor(Pending(form, [f]))
  {
    MentionsAfterMessages(es, done, f);
    assert Pending(form, [f]) == (if NeedsMessage(form, f) then [f] else []);
  }

  /** A submit whose only missing field is `f`, starting from a list that does
      not mention `f`, adds exactly the one message for `f`. */
  lemma OneMissingField(form: Form, f: Field)
    requires forall g: Field :: Filled(form, g) <==> g != f
    requires !Mentions(form.errors, Label(f))
    ensures Submit(form).form.errors == form.errors + [Message(f)]
  {
    assert !Filled(form, f);
    FailedSubmitAppends(form);
    PendingConcat(form, [Name], [ReviewText, Rating, Recommend]);
    PendingConcat(form, [ReviewText], [Rating, Recommend]);
    PendingConcat(form, [Rating], [Recommend]);
    assert Pending(form, [f]) == [f];
    match f
    case Name => assert Pending(form, Fields) == [Name];
    case ReviewText => assert Pending(form, Fields) == [ReviewText];
    case Rating => assert Pending(form, Fields) == [Rating];
    case Recommend => assert Pending(form, Fields) == [Recommend];
  }

  // ---------------------------------------------------------------------
  // Properties over repeated submits

  /** Submitting the same incomplete draft again changes nothing. */
  lemma FailedSubmitIdempotent(form: Form)
    requires !Complete(form)
    ensures Submit(Submit(form).form) == Submit(form)
  {
    var once := Submit(form).form;
    assert !Complete(once) by {
      var f: Field :| !Filled(form, f);
      assert !Filled(once, f);
    }
    FailedSubmitAppends(once);
    assert Pending(once, Fields) == [];
  }

  /** The error list only ever holds form messages, each at most once. */
  predicate WellFormedErrors(es: seq<string>) {
    && (forall i :: 0 <= i < |es| ==> es[i] in AllMessages)
    && (forall i, j :: 0 <= i < j < |es| ==> es[i] != es[j])
  }

  lemma RequireKeepsWellFormed(form: Form, f: Field, es: seq<string>)
    requires WellFormedErrors(es)
    ensures WellFormedErrors(Require(form, f, es))
  {
    if !Filled(form, f) && !Mentions(es, Label(f)) {
      PrefixIncluded(Label(f), " id required!");
    }
  }

  /** A submit, failing or not, keeps the error list well formed. */
  lemma SubmitKeepsWellFormed(form: Form)
    requires WellFormedErrors(form.errors)
    ensures WellFormedErrors(Submit(form).form.errors)
  {
    if !Complete(form) {
      var e1 := Require(form, Name, form.errors);
      var e2 := Require(form, ReviewText, e1);
      var e3 := Require(form, Rating, e2);
      RequireKeepsWellFormed(form, Name, form.errors);
      RequireKeepsWellFormed(form, ReviewText, e1);
      RequireKeepsWellFormed(form, Rating, e2);
      RequireKeepsWellFormed(form, Recommend, e3);
    }
  }

  /** In a well-formed list no word is mentioned by two messages. */
  lemma AtMostOnePerLabel(es: seq<string>, f: Field, i: int, j: int)
    requires WellFormedErrors(es)
    requires 0 <= i < j < |es|
    ensures !(Includes(es[i], Label(f)) && Includes(es[j], Label(f)))
  {
    var gi: Field :| es[i] == Message(gi) by { assert es[i] in AllMessages; }
    var gj: Field :| es[j] == Message(gj) by { assert es[j] in AllMessages; }
    MessageMentions(gi, f);
    MessageMentions(gj, f);
  }

  /** A well-formed list holds at most one message per field. */
  lemma WellFormedBound(es: seq<string>)
    requires WellFormedErrors(es)
    ensures |es| <= 4
  {
    DistinctBound(es, AllMessages);
  }

  lemma {:induction false} DistinctBound(es: seq<string>, s: set<string>)
    requires forall i :: 0 <= i < |es| ==> es[i] in s
    requires forall i, j :: 0 <= i < j < |es| ==> es[i] != es[j]
    ensures |es| <= |s|
    decreases |es|
  {
    if es != [] {
      DistinctBound(es[1..], s - {es[0]});
    }
  }
}
