/** `create_review`: an authenticated user rates a product that exists, with a non-blank text. */
module Reviews {
  import opened Wrappers
  import opened Records
  import opened Query
  import opened Text
  import opened Accounts

  predicate HasProductId(products: seq<Product>, productId: int) {
    exists i :: 0 <= i < |products| && products[i].id == productId
  }

  /**
   * The handler's checks, in its order: the rating range comes first, then
   * the text (empty once stripped of whitespace), then the product's
   * existence; None when all pass.
   */
  function CheckReview(products: seq<Product>, productId: int, rating: int, reviewText: string): (r: Option<Error>)
    ensures !(1 <= rating <= 5) ==> r == Some(BadRating)
    ensures 1 <= rating <= 5 && IsBlank(reviewText) ==> r == Some(EmptyReview)
    ensures 1 <= rating <= 5 && !IsBlank(reviewText) ==>
      (r.None? <==> HasProductId(products, productId)) && (r.Some? ==> r == Some(ProductNotFound))
  {
    StripEmptyIffBlank(reviewText);
    if !(1 <= rating <= 5) then Some(BadRating)
    else if Strip(reviewText) == [] then Some(EmptyReview)
    else if First(products, ProductIdIs(productId)).None? then Some(ProductNotFound)
    else None
  }

  /** What every stored review satisfies, given how many users and products exist. */
  predicate Acceptable(review: Review, userCount: nat, productCount: nat) {
    && 1 <= review.rating <= 5
    && !IsBlank(review.reviewText)
    && 1 <= review.productId <= productCount
    && 1 <= review.userId <= userCount
  }

  predicate AllAcceptable(reviews: seq<Review>, userCount: nat, productCount: nat) {
    forall i :: 0 <= i < |reviews| ==> Acceptable(reviews[i], userCount, productCount)
  }

  lemma AcceptableAppend(reviews: seq<Review>, review: Review, userCount: nat, productCount: nat)
    requires AllAcceptable(reviews, userCount, productCount) && Acceptable(review, userCount, productCount)
    ensures AllAcceptable(reviews + [review], userCount, productCount)
  {
  }

  /**
   * `create_review`: the bearer token is resolved first (401), then the
   * checks run; only when all pass is one review appended, written by the
   * caller.
   */
  function CreateReview(users: seq<User>, products: seq<Product>, reviews: seq<Review>, token: AccessToken,
                        productId: int, rating: int, reviewText: string)
    : (out: (Result<Review, Error>, seq<Review>))
    ensures CurrentUser(users, token).Err? ==> out == (Err(InvalidCredentials), reviews)
    ensures CurrentUser(users, token).Ok? && CheckReview(products, productId, rating, reviewText).Some? ==>
      out == (Err(CheckReview(products, productId, rating, reviewText).value), reviews)
    ensures out.0.Ok? <==> CurrentUser(users, token).Ok? && CheckReview(products, productId, rating, reviewText).None?
    ensures out.0.Ok? ==>
      && out.1 == reviews + [out.0.value]
      && out.0.value == Review(|reviews| + 1, productId, CurrentUser(users, token).value.id, rating, reviewText)
      && 1 <= rating <= 5 && !IsBlank(reviewText) && HasProductId(products, productId)
  {
    match CurrentUser(users, token)
    case Err(e) => (Err(e), reviews)
    case Ok(user) =>
      match CheckReview(products, productId, rating, reviewText)
      case Some(e) => (Err(e), reviews)
      case None =>
        var review := Review(|reviews| + 1, productId, user.id, rating, reviewText);
        (Ok(review), reviews + [review])
  }

  /** Whatever the request, the reviews table stays numbered and every review in it acceptable. */
  lemma CreateKeepsReviewsValid(users: seq<User>, products: seq<Product>, reviews: seq<Review>, token: AccessToken,
                                productId: int, rating: int, reviewText: string)
    requires UsersNumbered(users) && ProductsNumbered(products)
    requires ReviewsNumbered(reviews) && AllAcceptable(reviews, |users|, |products|)
    ensures var after := CreateReview(users, products, reviews, token, productId, rating, reviewText).1;
      ReviewsNumbered(after) && AllAcceptable(after, |users|, |products|)
  {
    var out := CreateReview(users, products, reviews, token, productId, rating, reviewText);
    if out.0.Ok? {
      CreatedReviewIsAcceptable(users, products, reviews, token, productId, rating, reviewText);
      AcceptableAppend(reviews, out.0.value, |users|, |products|);
    }
  }

  /** Whatever the request, a review that gets stored is one the table's invariant accepts. */
  lemma CreatedReviewIsAcceptable(users: seq<User>, products: seq<Product>, reviews: seq<Review>, token: AccessToken,
                                  productId: int, rating: int, reviewText: string)
    requires UsersNumbered(users) && ProductsNumbered(products)
    requires CreateReview(users, products, reviews, token, productId, rating, reviewText).0.Ok?
    ensures Acceptable(CreateReview(users, products, reviews, token, productId, rating, reviewText).0.value, |users|, |products|)
  {
    var user := CurrentUser(users, token).value;
    var i :| 0 <= i < |users| && users[i] == user;
    var k :| 0 <= k < |products| && products[k].id == productId;
  }
}
