/** The root component of the library front end (`frontend/src/App.jsx`):
    who is signed in, whether the librarian is, the cart of books picked
    for checkout, and which page is shown for a path. */
module LibraryApp {

  datatype Option<T> = None | Some(value: T)

  /** A book as the catalogue lists it; the cart tells books apart by
      `bookId` alone. */
  datatype Book = Book(bookId: int, title: string, author: string, copies: int)

  /** A signed-in member. */
  datatype Member = Member(memberId: int, name: string)

  /** No two entries of the cart share a book id. */
  ghost predicate UniqueIds(cart: seq<Book>)
  {
    forall i, j :: 0 <= i < j < |cart| ==> cart[i].bookId != cart[j].bookId
  }

  /** `cart.find(b => b.book_id === id)`: the first entry with that id. */
  function Find(cart: seq<Book>, id: int): (r: Option<Book>)
    ensures r.None? <==> forall b :: b in cart ==> b.bookId != id
    ensures r.Some? ==> r.value in cart && r.value.bookId == id
    ensures r.Some? ==>
      exists i :: 0 <= i < |cart| && cart[i] == r.value && forall k :: 0 <= k < i ==> cart[k].bookId != id
  {
    if cart == [] then None
    else if cart[0].bookId == id then Some(cart[0])
    else
      var r := Find(cart[1..], id);
      if r.Some? then
        assert forall b :: b in cart[1..] ==> b in cart;
        var i :| 0 <= i < |cart[1..]| && cart[1..][i] == r.value &&
          forall k :: 0 <= k < i ==> cart[1..][k].bookId != id;
        assert cart[i + 1] == r.value;
        r
      else
        assert forall b :: b in cart ==> b == cart[0] || b in cart[1..];
        r
  }

  /** The cart `addToCart` leaves: the book appended unless an entry
      already has its id. The old cart stays a prefix, the cart grows by at
      most one entry, the book's id is then present, and the only entry that
      can be new is the book itself. */
  function WithBook(cart: seq<Book>, book: Book): (r: seq<Book>)
    ensures cart <= r && |r| <= |cart| + 1
    ensures Find(r, book.bookId).Some?
    ensures forall b :: b in r <==> b in cart || (b == book && Find(cart, book.bookId).None?)
  {
    if Find(cart, book.bookId).None? then cart + [book] else cart
  }

  /** The cart `removeFromCart` leaves: `filter` on a different id. */
  function Without(cart: seq<Book>, id: int): (r: seq<Book>)
    ensures |r| <= |cart|
    ensures forall b :: b in r <==> b in cart && b.bookId != id
  {
    if cart == [] then []
    else if cart[0].bookId != id then [cart[0]] + Without(cart[1..], id)
    else Without(cart[1..], id)
  }

  /** Adding keeps the ids distinct, and the book's id is then in the
      cart. */
  lemma WithBookUnique(cart: seq<Book>, book: Book)
    requires UniqueIds(cart)
    ensures UniqueIds(WithBook(cart, book))
    ensures Find(WithBook(cart, book), book.bookId).Some?
  {
    var r := WithBook(cart, book);
    assert r[|r| - 1] in r;
  }

  /** Adding a book already carried, or adding the same book twice, is the
      same as adding it once. */
  lemma WithBookIdempotent(cart: seq<Book>, book: Book)
    ensures WithBook(WithBook(cart, book), book) == WithBook(cart, book)
    ensures Find(cart, book.bookId).Some? ==> WithBook(cart, book) == cart
  {
    var r := WithBook(cart, book);
    if Find(cart, book.bookId).None? {
      assert r[|r| - 1] == book;
      assert book in r;
    }
  }

  /** Adding grows the cart by exactly the new book or not at all, and
      keeps the earlier entries in place. */
  lemma WithBookExtends(cart: seq<Book>, book: Book)
    ensures var r := WithBook(cart, book);
      r[..|cart|] == cart &&
      (r == cart || (r == cart + [book] && forall b :: b in cart ==> b.bookId != book.bookId))
  {
  }

  /** Removing splits over concatenation: entries keep their order. */
  lemma {:induction false} WithoutConcat(a: seq<Book>, b: seq<Book>, id: int)
    ensures Without(a + b, id) == Without(a, id) + Without(b, id)
  {
    if a == [] {
      assert a + b == b;
    } else {
      assert (a + b)[1..] == a[1..] + b;
      WithoutConcat(a[1..], b, id);
    }
  }

  /** Removing keeps the ids distinct. */
  lemma {:induction false} WithoutUnique(cart: seq<Book>, id: int)
    requires UniqueIds(cart)
    ensures UniqueIds(Without(cart, id))
  {
    if cart != [] {
      WithoutUnique(cart[1..], id);
      var rest := Without(cart[1..], id);
      if cart[0].bookId != id {
        var r := [cart[0]] + rest;
        forall i, j | 0 <= i < j < |r|
          ensures r[i].bookId != r[j].bookId
        {
          if i == 0 {
            assert r[j] in rest;
            assert r[j] in cart[1..];
          }
        }
      }
    }
  }

  /** Removing a book just added gives back the cart without that id;
      removing twice is removing once. */
  lemma WithoutWithBook(cart: seq<Book>, book: Book)
    ensures Without(WithBook(cart, book), book.bookId) == Without(cart, book.bookId)
    ensures Without(Without(cart, book.bookId), book.bookId) == Without(cart, book.bookId)
  {
    if Find(cart, book.bookId).None? {
      WithoutConcat(cart, [book], book.bookId);
      assert Without([book], book.bookId) == [];
    }
    WithoutAbsent(Without(cart, book.bookId), book.bookId);
  }

  /** Removing an id the cart does not hold changes nothing. */
  lemma {:induction false} WithoutAbsent(cart: seq<Book>, id: int)
    requires forall b :: b in cart ==> b.bookId != id
    ensures Without(cart, id) == cart
  {
    if cart != [] {
      assert cart[0] in cart;
      assert forall b :: b in cart[1..] ==> b in cart;
      WithoutAbsent(cart[1..], id);
      assert [cart[0]] + cart[1..] == cart;
    }
  }

  /** With distinct ids, removing an id the cart holds drops exactly one
      entry. */
  lemma {:induction false} WithoutCount(cart: seq<Book>, id: int)
    requires UniqueIds(cart)
    ensures |Without(cart, id)| == if Find(cart, id).Some? then |cart| - 1 else |cart|
  {
    if cart != [] {
      WithoutCount(cart[1..], id);
      if cart[0].bookId == id {
        assert forall b :: b in cart[1..] ==> b.bookId != id by {
          forall b | b in cart[1..]
            ensures b.bookId != id
          {
            var j :| 0 <= j < |cart[1..]| && cart[1..][j] == b;
            assert cart[j + 1] == b;
          }
        }
      }
    }
  }

  /** The pages the component can show. */
  datatype Page = AuthPage | AdminPage | BrowsePage | CartPage | BorrowedPage

  /** c with an ASCII upper-case letter folded to lower case. */
  function LowerAscii(c: char): (r: char)
    ensures 'A' <= c <= 'Z' ==> r as int == c as int + 32
    ensures !('A' <= c <= 'Z') ==> r == c
    ensures !('A' <= r <= 'Z')
  {
    if 'A' <= c <= 'Z' then (c as int + 32) as char else c
  }

  /** The part of path before its trailing slashes. */
  function StripTrailingSlashes(path: string): (r: string)
    ensures r <= path
    ensures forall k :: |r| <= k < |path| ==> path[k] == '/'
    ensures r == [] || r[|r| - 1] != '/'
  {
    if path == [] || path[|path| - 1] != '/' then path
    else StripTrailingSlashes(path[..|path| - 1])
  }

  /** The router's default match of a path against a route pattern without
      parameters, such as "/cart": the pattern compiles to a case-insensitive
      expression that allows any number of trailing slashes. The patterns
      are ASCII, and a case-insensitive JavaScript expression matches an
      ASCII character only against itself and its other ASCII case. */
  predicate Matches(route: string, path: string)
  {
    var p := StripTrailingSlashes(path);
    |p| == |route| && forall k :: 0 <= k < |p| ==> LowerAscii(p[k]) == LowerAscii(route[k])
  }

  /** One more trailing slash never changes which route a path reaches. */
  lemma MatchesTrailingSlash(route: string, path: string)
    ensures StripTrailingSlashes(path + "/") == StripTrailingSlashes(path)
    ensures Matches(route, path + "/") <==> Matches(route, path)
  {
    assert (path + "/")[..|path|] == path;
  }

  /** A trailing slash and a change of ASCII case still reach "/cart". */
  lemma CartVariantsMatch()
    ensures Matches("/cart", "/cart")
    ensures Matches("/cart", "/cart/")
    ensures Matches("/cart", "/Cart")
  {
    assert StripTrailingSlashes("/cart") == "/cart";
    assert StripTrailingSlashes("/Cart") == "/Cart";
    assert StripTrailingSlashes("/cart/") == "/cart" by {
      assert "/cart/"[..5] == "/cart";
    }
    assert LowerAscii('C') == 'c';
  }

  /** A longer path or another route does not reach "/cart". */
  lemma OtherPathsMiss()
    ensures !Matches("/cart", "/carts")
    ensures !Matches("/cart", "/cart/x")
    ensures !Matches("/cart", "/borrowed")
  {
    assert StripTrailingSlashes("/carts") == "/carts";
    assert StripTrailingSlashes("/cart/x") == "/cart/x";
    assert StripTrailingSlashes("/borrowed") == "/borrowed";
  }

  /** What the component renders for a path: the sign-in page while nobody
      is signed in, the admin page at every path for the librarian ("*"
      redirects to "/"), and for a member the page of the route the path
      matches, any other path redirected to "/". */
  function Render(user: Option<Member>, isAdmin: bool, path: string): (r: Page)
    ensures user.None? && !isAdmin <==> r == AuthPage
    ensures isAdmin <==> r == AdminPage
    ensures r == CartPage <==> user.Some? && !isAdmin && Matches("/cart", path)
    ensures r == BorrowedPage <==> user.Some? && !isAdmin && Matches("/borrowed", path)
  {
    if user.None? && !isAdmin then AuthPage
    else if isAdmin then AdminPage
    else if Matches("/cart", path) then CartPage
    else if Matches("/borrowed", path) then BorrowedPage
    else BrowsePage
  }

  /** The state of `App`. */
  class App {
    var user: Option<Member>
    var isAdmin: bool
    var cart: seq<Book>

    /** The cart never holds two entries with one book id. */
    ghost predicate Valid()
      reads this
    {
      UniqueIds(cart)
    }

    /** `useState` initial values: nobody signed in, an empty cart. */
    constructor ()
      ensures Valid() && user == None && !isAdmin && cart == []
    {
      user, isAdmin, cart := None, false, [];
    }

    /** The page shown at `path`. */
    function Page(path: string): Page
      reads this
    {
      Render(user, isAdmin, path)
    }

    /** `onLogin={setUser}`. */
    method Login(member: Member)
      modifies this
      ensures user == Some(member) && isAdmin == old(isAdmin) && cart == old(cart)
    {
      user := Some(member);
    }

    /** `onAdminLogin`. */
    method AdminLogin()
      modifies this
      ensures isAdmin && user == old(user) && cart == old(cart)
    {
      isAdmin := true;
    }

    /** `addToCart`. */
    method AddToCart(book: Book)
      requires Valid()
      modifies this
      ensures Valid()
      ensures cart == WithBook(old(cart), book)
      ensures user == old(user) && isAdmin == old(isAdmin)
    {
      WithBookUnique(cart, book);
      if Find(cart, book.bookId).None? {
        cart := cart + [book];
      }
    }

    /** `removeFromCart`. */
    method RemoveFromCart(bookId: int)
      requires Valid()
      modifies this
      ensures Valid()
      ensures cart == Without(old(cart), bookId)
      ensures user == old(user) && isAdmin == old(isAdmin)
    {
      WithoutUnique(cart, bookId);
      cart := Without(cart, bookId);
    }

    /** `clearCart`. */
    method ClearCart()
      modifies this
      ensures Valid() && cart == []
      ensures user == old(user) && isAdmin == old(isAdmin)
    {
      cart := [];
    }

    /** `logout`: everything back to the initial state, so only the
        sign-in page can be shown. */
    method Logout()
      modifies this
      ensures Valid() && user == None && !isAdmin && cart == []
      ensures forall path :: Page(path) == AuthPage
    {
      user := None;
      isAdmin := false;
      cart := [];
    }
  }
}
