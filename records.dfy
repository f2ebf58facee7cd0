/**
 * The rows of the service's tables, the error replies its handlers raise, and
 * the password hashing they call. Primary keys are assigned 1, 2, 3, ... in
 * insertion order; no handler deletes a row.
 */
module Records {
  import opened Wrappers
  import opened Text

  /** bcrypt reads at most this many bytes of a password. */
  const BcryptKeyBytes := 72

  /**
   * The part of a password bcrypt reads: the first 72 bytes of its UTF-8
   * encoding. The hashing library drops the rest without complaint.
   */
  function BcryptKey(password: string): seq<byte> {
    var bytes := Utf8(password);
    if |bytes| <= BcryptKeyBytes then bytes else bytes[..BcryptKeyBytes]
  }

  /**
   * A bcrypt digest, idealised: the salt is the random part chosen at hashing
   * time, and the digest verifies exactly the passwords whose key (see
   * `BcryptKey`) is the key it was computed from.
   */
  datatype PasswordHash = Bcrypt(salt: nat, key: seq<byte>)

  /** `verify_password`: does `plain` match the stored digest? */
  predicate VerifyPassword(plain: string, hashed: PasswordHash) {
    BcryptKey(plain) == hashed.key
  }

  /** `get_password_hash`, with the salt the hashing library would draw at random. */
  function HashPassword(password: string, salt: nat): (hashed: PasswordHash)
    ensures VerifyPassword(password, hashed)
    ensures forall other :: VerifyPassword(other, hashed) <==> BcryptKey(other) == BcryptKey(password)
  {
    Bcrypt(salt, BcryptKey(password))
  }

  /** Up to 72 bytes nothing is cut off: a digest then verifies its own password and no other. */
  lemma ShortPasswordsDistinct(password: string, other: string, salt: nat)
    requires |Utf8(password)| <= BcryptKeyBytes && |Utf8(other)| <= BcryptKeyBytes
    ensures VerifyPassword(other, HashPassword(password, salt)) <==> other == password
  {
    if VerifyPassword(other, HashPassword(password, salt)) {
      Utf8Injective(other, password);
    }
  }

  /**
   * Beyond 72 bytes the rest is ignored: 72 letters followed by "x" and the
   * same 72 letters followed by "y" are different passwords, and each
   * verifies against the other's digest.
   */
  lemma LongPasswordsCollide(salt: nat)
    ensures var stem := seq(BcryptKeyBytes, _ => 'a');
      && stem + "x" != stem + "y"
      && VerifyPassword(stem + "y", HashPassword(stem + "x", salt))
      && VerifyPassword(stem + "x", HashPassword(stem + "y", salt))
  {
    var stem := seq(BcryptKeyBytes, _ => 'a');
    assert (stem + "x")[BcryptKeyBytes] != (stem + "y")[BcryptKeyBytes];
    Utf8Ascii(stem);
    Utf8Append(stem, "x");
    Utf8Append(stem, "y");
    assert BcryptKey(stem + "x") == Utf8(stem) == BcryptKey(stem + "y");
  }

  datatype User = User(id: nat, email: string, username: string, hashedPassword: PasswordHash, resetToken: Option<string>)

  /** One successful login; its timestamp is not modelled. */
  datatype LoginActivity = LoginActivity(id: nat, userId: nat)

  /** A product; a missing reorder threshold or supplier is SQL NULL. */
  datatype Product = Product(id: nat, name: string, stockLevel: int, reorderThreshold: Option<int>, supplierId: Option<int>)

  /** A product review; its creation time is not modelled. */
  datatype Review = Review(id: nat, productId: int, userId: nat, rating: int, reviewText: string)

  datatype Photo = Photo(id: nat, url: string, uploadedBy: nat, category: string, approved: bool)

  /** The bearer token login hands out, reduced to its subject (the user's e-mail); signature and expiry are not modelled. */
  datatype AccessToken = AccessToken(subject: string)

  /** An HTTP error reply: status code and detail text. */
  datatype Error = Error(status: nat, detail: string)

  const EmailTaken := Error(400, "Email already registered")
  const BadCredentials := Error(401, "Incorrect email or password")
  const InvalidCredentials := Error(401, "Could not validate credentials")
  const UserNotFound := Error(404, "User not found")
  const InvalidResetToken := Error(400, "Invalid or expired reset token")
  const BadRating := Error(400, "Rating must be between 1 and 5")
  const EmptyReview := Error(400, "Review text cannot be empty")
  const ProductNotFound := Error(404, "Product not found")

  function UnknownPurchaseItem(productId: string): Error {
    Error(404, "Product with id " + productId + " not found")
  }

  function NotEnoughStock(name: string): Error {
    Error(400, "Not enough stock for product " + name)
  }

  // The filters the handlers pass to the ORM.

  function EmailIs(email: string): User -> bool { (u: User) => u.email == email }
  function ResetTokenIs(token: string): User -> bool { (u: User) => u.resetToken == Some(token) }
  function NameIs(name: string): Product -> bool { (p: Product) => p.name == name }
  function ProductIdIs(id: int): Product -> bool { (p: Product) => p.id == id }
  function PhotoIdIs(id: int): Photo -> bool { (p: Photo) => p.id == id }
  function LoggedBy(userId: nat): LoginActivity -> bool { (a: LoginActivity) => a.userId == userId }

  // Table invariants.

  predicate EmailsUnique(users: seq<User>) {
    forall i, j :: 0 <= i < j < |users| ==> users[i].email != users[j].email
  }

  /** No two users hold the same reset token. */
  predicate TokensUnique(users: seq<User>) {
    forall i, j :: 0 <= i < j < |users| && users[i].resetToken.Some? ==> users[j].resetToken != users[i].resetToken
  }

  predicate NamesUnique(products: seq<Product>) {
    forall i, j :: 0 <= i < j < |products| ==> products[i].name != products[j].name
  }

  predicate UsersNumbered(users: seq<User>) { forall i :: 0 <= i < |users| ==> users[i].id == i + 1 }
  predicate LoginsNumbered(logins: seq<LoginActivity>) { forall i :: 0 <= i < |logins| ==> logins[i].id == i + 1 }
  predicate ProductsNumbered(products: seq<Product>) { forall i :: 0 <= i < |products| ==> products[i].id == i + 1 }
  predicate ReviewsNumbered(reviews: seq<Review>) { forall i :: 0 <= i < |reviews| ==> reviews[i].id == i + 1 }
  predicate PhotosNumbered(photos: seq<Photo>) { forall i :: 0 <= i < |photos| ==> photos[i].id == i + 1 }
}
