/**
 * The backend as one object: the five tables the handlers read and write,
 * held as sequences in id order, and one method per state-changing handler.
 * Each method does its lookups and row updates step by step and is proved
 * to leave the tables exactly as the matching function of the Accounts,
 * Catalog, Reviews, Photos or Monitor module says, while keeping the table
 * invariants (`Valid`).
 */
module Service {
  import opened Wrappers
  import opened Records
  import opened Query
  import Accounts
  import Catalog
  import Reviews
  import Photos
  import Monitor

  class Store {
    var users: seq<User>
    var logins: seq<LoginActivity>
    var products: seq<Product>
    var reviews: seq<Review>
    var photos: seq<Photo>
    /** The reorder threshold a product gets when it is inserted without one. */
    const defaultReorderThreshold: Option<int>

    /** Unique e-mails, user ids counting up from 1, and no reset token held by two users. */
    ghost predicate UsersValid()
      reads this`users
    {
      EmailsUnique(users) && UsersNumbered(users) && TokensUnique(users)
    }

    /** Login rows numbered from 1, each naming an existing user. */
    ghost predicate LoginsValid()
      reads this`users, this`logins
    {
      LoginsNumbered(logins) && forall i :: 0 <= i < |logins| ==> 1 <= logins[i].userId <= |users|
    }

    /** Unique product names, and product ids counting up from 1. */
    ghost predicate ProductsValid()
      reads this`products
    {
      NamesUnique(products) && ProductsNumbered(products)
    }

    /** Reviews numbered from 1, each acceptable for the current users and products. */
    ghost predicate ReviewsValid()
      reads this`users, this`products, this`reviews
    {
      ReviewsNumbered(reviews) && Reviews.AllAcceptable(reviews, |users|, |products|)
    }

    /** Photos numbered from 1, each uploaded by an existing user. */
    ghost predicate PhotosValid()
      reads this`users, this`photos
    {
      PhotosNumbered(photos) && forall i :: 0 <= i < |photos| ==> 1 <= photos[i].uploadedBy <= |users|
    }

    /** The table invariant every handler keeps. */
    ghost predicate Valid()
      reads this
    {
      UsersValid() && LoginsValid() && ProductsValid() && ReviewsValid() && PhotosValid()
    }

    constructor (defaultThreshold: Option<int>)
      ensures Valid()
      ensures users == [] && logins == [] && products == [] && reviews == [] && photos == []
      ensures defaultReorderThreshold == defaultThreshold
    {
      users := [];
      logins := [];
      products := [];
      reviews := [];
      photos := [];
      defaultReorderThreshold := defaultThreshold;
    }

    /** `register_user`. */
    method Register(email: string, username: string, password: string, salt: nat) returns (r: Result<User, Error>)
      requires Valid()
      modifies this`users
      ensures Valid()
      ensures (r, users) == Accounts.Register(old(users), email, username, password, salt)
    {
      Accounts.RegisterKeepsTokensUnique(users, email, username, password, salt);
      var existing := First(users, EmailIs(email));
      if existing.Some? {
        return Err(EmailTaken);
      }
      var user := User(|users| + 1, email, username, HashPassword(password, salt), None);
      users := users + [user];
      r := Ok(user);
    }

    /** `login`: a successful login appends one activity row. */
    method Login(email: string, password: string) returns (r: Result<Accounts.TokenReply, Error>)
      requires Valid()
      modifies this`logins
      ensures Valid()
      ensures (r, logins) == Accounts.Login(users, old(logins), email, password)
    {
      var found := First(users, EmailIs(email));
      if found.None? || !VerifyPassword(password, users[found.value].hashedPassword) {
        return Err(BadCredentials);
      }
      var user := users[found.value];
      logins := logins + [LoginActivity(|logins| + 1, user.id)];
      r := Ok(Accounts.TokenReply(AccessToken(user.email), "bearer"));
    }

    /**
     * `request_password_reset`, with the freshly drawn token passed in: a
     * random 32-byte token, so no user holds it yet.
     */
    method RequestPasswordReset(email: string, token: string) returns (r: Result<Accounts.ResetReply, Error>)
      requires Valid()
      requires Accounts.HeldByNone(users, token)
      modifies this`users
      ensures Valid()
      ensures (r, users) == Accounts.RequestReset(old(users), email, token)
    {
      Accounts.RequestResetKeepsTokensUnique(users, email, token);
      var found := First(users, EmailIs(email));
      if found.None? {
        return Err(UserNotFound);
      }
      var i := found.value;
      users := users[i := users[i].(resetToken := Some(token))];
      r := Ok(Accounts.ResetReply(Accounts.ResetSent, token));
    }

    /**
     * `change_password`, with the salt of the new digest passed in. The token
     * is single use: after a success nobody holds it.
     */
    method ChangePassword(token: string, newPassword: string, salt: nat) returns (r: Result<string, Error>)
      requires Valid()
      modifies this`users
      ensures Valid()
      ensures (r, users) == Accounts.ChangePassword(old(users), token, newPassword, salt)
      ensures r.Ok? ==> Accounts.HeldByNone(users, token)
    {
      Accounts.ChangePasswordKeepsTokensUnique(users, token, newPassword, salt);
      var found := First(users, ResetTokenIs(token));
      if found.None? {
        return Err(InvalidResetToken);
      }
      var i := found.value;
      users := users[i := users[i].(hashedPassword := HashPassword(newPassword, salt), resetToken := None)];
      r := Ok(Accounts.PasswordChanged);
    }

    /** `get_login_activity`: the caller's rows, collected by one pass over the table. */
    method GetLoginActivity(token: AccessToken) returns (r: Result<seq<LoginActivity>, Error>)
      ensures r == Accounts.LoginHistory(users, logins, token)
    {
      var caller := Accounts.CurrentUser(users, token);
      if caller.Err? {
        return Err(caller.error);
      }
      var mine: seq<LoginActivity> := [];
      for i := 0 to |logins|
        invariant mine == Where(logins[..i], LoggedBy(caller.value.id))
      {
        WhereAppend(logins[..i], [logins[i]], LoggedBy(caller.value.id));
        assert logins[..i + 1] == logins[..i] + [logins[i]];
        if logins[i].userId == caller.value.id {
          mine := mine + [logins[i]];
        }
      }
      assert logins[..|logins|] == logins;
      r := Ok(mine);
    }

    /** `create_review`. */
    method CreateReview(token: AccessToken, productId: int, rating: int, reviewText: string) returns (r: Result<Review, Error>)
      requires Valid()
      modifies this`reviews
      ensures Valid()
      ensures (r, reviews) == Reviews.CreateReview(users, products, old(reviews), token, productId, rating, reviewText)
    {
      Reviews.CreateKeepsReviewsValid(users, products, reviews, token, productId, rating, reviewText);
      var caller := Accounts.CurrentUser(users, token);
      if caller.Err? {
        return Err(caller.error);
      }
      var problem := Reviews.CheckReview(products, productId, rating, reviewText);
      if problem.Some? {
        return Err(problem.value);
      }
      reviews := reviews + [Review(|reviews| + 1, productId, caller.value.id, rating, reviewText)];
      r := Ok(reviews[|reviews| - 1]);
    }

    /** `add_or_update_product`. */
    method AddOrUpdateProduct(name: string, stockLevel: int, supplierId: Option<int>) returns (reply: Catalog.UpsertReply)
      requires Valid()
      modifies this`products
      ensures Valid()
      ensures (reply, products) == Catalog.AddOrUpdate(old(products), name, stockLevel, supplierId, defaultReorderThreshold)
    {
      var found := First(products, NameIs(name));
      if found.Some? {
        var k := found.value;
        products := products[k := products[k].(stockLevel := products[k].stockLevel + stockLevel)];
        reply := Catalog.UpsertReply(Catalog.ProductUpdated, products[k]);
      } else {
        var created := Product(|products| + 1, name, stockLevel, defaultReorderThreshold, supplierId);
        products := products + [created];
        reply := Catalog.UpsertReply(Catalog.ProductAdded, created);
      }
    }

    /**
     * `purchase_items`: each item is committed as soon as it is checked, so
     * a failing item returns with the earlier decrements kept.
     */
    method Purchase(items: seq<Catalog.PurchaseItem>) returns (r: Result<string, Error>)
      requires Valid()
      modifies this`products
      ensures Valid()
      ensures (r, products) == Catalog.Purchase(old(products), items)
    {
      for i := 0 to |items|
        invariant |products| == |old(products)| && UsersValid() && LoginsValid() && ReviewsValid() && PhotosValid()
        invariant Catalog.Purchase(old(products), items) == Catalog.Purchase(products, items[i..])
      {
        var item := items[i];
        assert items[i..][0] == item && items[i..][1..] == items[i + 1..];
        var found := First(products, NameIs(item.productId));
        if found.None? {
          assert Catalog.PurchaseStep(products, item) == Err(UnknownPurchaseItem(item.productId));
          Catalog.SameCatalogKeepsKeys(old(products), products);
          return Err(UnknownPurchaseItem(item.productId));
        }
        var k := found.value;
        if products[k].stockLevel < item.quantity {
          assert Catalog.PurchaseStep(products, item) == Err(NotEnoughStock(products[k].name));
          Catalog.SameCatalogKeepsKeys(old(products), products);
          return Err(NotEnoughStock(products[k].name));
        }
        var next := products[k := products[k].(stockLevel := products[k].stockLevel - item.quantity)];
        assert Catalog.PurchaseStep(products, item) == Ok(next);
        products := next;
      }
      Catalog.SameCatalogKeepsKeys(old(products), products);
      r := Ok(Catalog.PurchaseSuccessful);
    }

    /** `upload_photo`: the metadata row only; the file itself is not modelled. */
    method UploadPhoto(token: AccessToken, filename: string, category: string) returns (r: Result<Photos.UploadReply, Error>)
      requires Valid()
      modifies this`photos
      ensures Valid()
      ensures (r, photos) == Photos.UploadPhoto(users, old(photos), token, filename, category)
    {
      var caller := Accounts.CurrentUser(users, token);
      if caller.Err? {
        return Err(caller.error);
      }
      ghost var i :| 0 <= i < |users| && users[i] == caller.value;
      var photo := Photo(|photos| + 1, Photos.StaticUrlBase + filename, caller.value.id, category, false);
      photos := photos + [photo];
      r := Ok(Photos.UploadReply(Photos.PhotoUploaded, photo.id));
    }

    /** `approve_photo`. */
    method ApprovePhoto(photoId: int) returns (reply: Photos.ApproveReply)
      requires Valid()
      modifies this`photos
      ensures Valid()
      ensures (reply, photos) == Photos.ApprovePhoto(old(photos), photoId)
    {
      var found := First(photos, PhotoIdIs(photoId));
      if found.None? {
        return Photos.NotApproved("Photo not found");
      }
      var k := found.value;
      photos := photos[k := photos[k].(approved := true)];
      reply := Photos.Approved("Photo approved");
    }

    /** One cycle of `check_low_stock`: the e-mail it would send, if any. */
    method CheckLowStock() returns (mail: Option<Monitor.Email>)
      ensures mail == Monitor.LowStockAlert(products)
    {
      var items := Monitor.LowStockItems(products);
      if items == [] {
        return None;
      }
      var body := Monitor.ComposeBody(items);
      mail := Some(Monitor.Email(Monitor.Subject, body));
    }
  }
}
